/**
  `CoalescingAllocator`: free ranges in two AVL trees, allocated fragments in a
  third, and reference-counted user objects behind the fragments.
 */
module CoalescingAllocators {
  import opened Ranges
  import opened Options
  import opened Avl
  import opened CoalescingSpec
  import opened RangeTrees
  import opened Words

  /** `allocate_range` grants a range, refuses, or stops at its own assertion. */
  datatype Allocation = Granted(range: Range) | Refused | Stopped

  class CoalescingAllocator<U> {
    const allowRedundantFrees: bool
    const freeBySizeTree: AVLTree<Range>
    const freeByStartTree: AVLTree<Range>
    const allocatedTree: AVLTree<Fragment>
    /** The live `RefcountedUserObj`s; `made` is the next identity, `destroyed` the order of destructor calls. */
    var objs: map<nat, Refcounted<U>>
    var made: nat
    var destroyed: seq<nat>

    ghost function Free(): map<int, Range>
      reads freeByStartTree
    {
      freeByStartTree.Contents()
    }

    ghost function Alloc(): map<int, Fragment>
      reads allocatedTree
    {
      allocatedTree.Contents()
    }

    /** The trees are three objects, and the two free trees index the same spaced ranges. */
    ghost predicate FreeValid()
      reads freeBySizeTree, freeByStartTree
    {
      var valid :=
        && freeBySizeTree != freeByStartTree
        && freeBySizeTree as object != allocatedTree && freeByStartTree as object != allocatedTree
        && freeBySizeTree.Valid() && freeByStartTree.Valid() && FreeOk(freeBySizeTree.Contents(), Free());
      valid
    }

    ghost predicate Valid()
      reads this, freeBySizeTree, freeByStartTree, allocatedTree
    {
      var valid :=
        && FreeValid() && allocatedTree.Valid()
        && AllocOk(Alloc(), Free()) && RefsOk(Alloc(), objs, destroyed, made);
      valid
    }

    constructor (allowRedundantFrees: bool)
      ensures Valid() && fresh(freeBySizeTree) && fresh(freeByStartTree) && fresh(allocatedTree)
      ensures Free() == map[] && Alloc() == map[] && this.allowRedundantFrees == allowRedundantFrees
    {
      this.allowRedundantFrees := allowRedundantFrees;
      freeBySizeTree := new AVLTree();
      freeByStartTree := new AVLTree();
      allocatedTree := new AVLTree();
      objs, made, destroyed := map[], 0, [];
    }

    // ----- the free trees -----

    method RemoveFreeRangeByStart(range: Range)
      requires FreeValid() && range.start in Free() && Free()[range.start] == range
      modifies freeBySizeTree, freeByStartTree
      ensures FreeValid() && Free() == old(Free()) - {range.start}
      ensures forall x :: Covers(Free(), x) <==> old(Covers(Free(), x)) && !range.Has(x)
    {
      FreeDrop(freeBySizeTree.Contents(), Free(), range.start);
      var corresponding := freeBySizeTree.Lookup(SizeKey(range));
      assert corresponding.Some?;
      var _ := freeBySizeTree.Remove(SizeKey(range));
      var _ := freeByStartTree.Remove(range.start);
    }

    method InsertCoalescedFreeRange(range: Range)
      requires FreeValid() && range.Proper()
      requires forall k :: k in Free() ==> range.end < k || Free()[k].end < range.start
      modifies freeBySizeTree, freeByStartTree
      ensures FreeValid() && Free() == old(Free())[range.start := range]
      ensures forall x :: Covers(Free(), x) <==> old(Covers(Free(), x)) || range.Has(x)
    {
      FreeAdd(freeBySizeTree.Contents(), Free(), range);
      freeBySizeTree.InsertNew(SizeKey(range), range);
      freeByStartTree.InsertNew(range.start, range);
    }

    /**
      Adds a free range, joined with its neighbours. `level` counts the
      recursion: the joined range is never followed by another free range, so
      the recursive call does not recurse again.
     */
    method CreateEmptyRangeNoLock(newRange: Range, ghost level: nat)
      requires FreeValid() && newRange.Proper() && Clear(Free(), newRange)
      requires level == 0 || (level == 1 && newRange.end !in Free())
      modifies freeBySizeTree, freeByStartTree
      ensures FreeValid()
      ensures forall x :: Covers(Free(), x) <==> old(Covers(Free(), x)) || newRange.Has(x)
      decreases 1 - level
    {
      var following, preceding := FindNeighbours(newRange);
      if following.Some? {
        var followingRange := following.value.1;
        assert followingRange.start >= newRange.end;
        if followingRange.start == newRange.end {
          JoinRight(freeBySizeTree.Contents(), Free(), newRange);
          RemoveFreeRangeByStart(followingRange);
          CreateEmptyRangeNoLock(Range(newRange.start, followingRange.end), level + 1);
          return;
        }
      }
      if preceding.Some? {
        var precedingRange := preceding.value.1;
        assert precedingRange.end <= newRange.start;
        if precedingRange.end == newRange.start {
          JoinLeft(freeBySizeTree.Contents(), Free(), newRange, precedingRange.start);
          RemoveFreeRangeByStart(precedingRange);
          InsertCoalescedFreeRange(Range(precedingRange.start, newRange.end));
          return;
        }
      }
      InsertCoalescedFreeRange(newRange);
    }

    /** The free ranges on either side; the assertions on them hold, and they tell whether the range touches one. */
    method FindNeighbours(r: Range) returns (following: Option<(int, Range)>, preceding: Option<(int, Range)>)
      requires FreeValid() && r.Proper() && Clear(Free(), r)
      ensures following.Some? ==> Entry(following.value) && following.value.0 >= r.end
      ensures preceding.Some? ==> Entry(preceding.value) && preceding.value.1.end <= r.start
      ensures r.end in Free() ==> following.Some? && following.value.0 == r.end
      ensures r.end !in Free() && (preceding.Some? ==> preceding.value.1.end != r.start) ==>
                forall k :: k in Free() ==> r.end < k || Free()[k].end < r.start
    {
      FreeSeen(Free(), r.start);
      following := freeByStartTree.FirstGreaterThanOrEqualToBy(ByStart(r.start));
      preceding := freeByStartTree.FirstLessThanOrEqualToBy(ByStart(r.start));
      Neighbours(Free(), r, following, preceding);
      if following.Some? {
        FreeLow(Free(), following.value.0);
      }
      if preceding.Some? {
        FreeLow(Free(), preceding.value.0);
      }
    }

    ghost predicate Entry(e: (int, Range))
      reads freeByStartTree
    {
      e.0 in Free() && Free()[e.0] == e.1 && e.1.start == e.0
    }

    /** `range` must be clear of what is already there; only the free ranges are checked. */
    method CreateEmptyRange(range: Range)
      requires Valid() && range.Proper() && Clear(Free(), range)
      requires forall x :: range.Has(x) ==> !Taken(Alloc(), x)
      modifies freeBySizeTree, freeByStartTree
      ensures Valid()
      ensures forall x :: Covers(Free(), x) <==> old(Covers(Free(), x)) || range.Has(x)
    {
      ghost var m := Free();
      CreateEmptyRangeNoLock(range, 0);
      AllocOkByPoints(Alloc(), m, Free());
    }

    // ----- reference counts -----

    method AddRef(o: nat)
      requires o in objs
      modifies this`objs
      ensures objs == Counting(old(objs), o, old(objs)[o].refcount + 1)
    {
      objs := objs[o := objs[o].(refcount := objs[o].refcount + 1)];
    }

    /** Gives up one reference; the last one takes the object along. */
    method DropRef(o: nat)
      requires o in objs && objs[o].refcount > 0
      modifies this`objs, this`destroyed
      ensures objs == Counting(old(objs), o, old(objs)[o].refcount - 1)
      ensures destroyed == old(destroyed) + if old(objs)[o].refcount == 1 then [o] else []
    {
      objs := objs[o := objs[o].(refcount := objs[o].refcount - 1)];
      if objs[o].refcount == 0 {
        objs := objs - {o};
        destroyed := destroyed + [o];
      }
    }

    // ----- allocation -----

    /**
      A size beyond 2^31 with a tree whose root is so much smaller that the
      signed comparison takes it for larger.
     */
    ghost predicate MisreadsSize(size: nat)
      reads freeBySizeTree
    {
      && HALF < size && freeBySizeTree.shape.Node?
      && freeBySizeTree.shape.item.key / WORD < size - HALF
    }

    /** Carves `size` points from the front of the best-fitting free range. */
    method AllocateRange(size: nat, userObj: U) returns (r: Allocation)
      requires Valid() && size < WORD
      modifies this, freeBySizeTree, freeByStartTree, allocatedTree
      ensures Valid()
      ensures r.Granted? <==> size > 0 && exists k :: k in old(Free()) && old(Free())[k].Size() >= size
      ensures r.Stopped? <==> old(MisreadsSize(size))
      ensures !r.Granted? ==>
        && Free() == old(Free()) && Alloc() == old(Alloc())
        && objs == old(objs) && destroyed == old(destroyed) && made == old(made)
      ensures r.Granted? ==> BestFit(old(Free()), size, r.range.start) && r.range.end == r.range.start + size
      ensures r.Granted? ==> forall x :: Covers(Free(), x) <==> old(Covers(Free(), x)) && !r.range.Has(x)
      ensures r.Granted? ==> Alloc() == old(Alloc())[r.range.start := Fragment(r.range, old(made))]
      ensures r.Granted? ==> objs == old(objs)[old(made) := Refcounted(userObj, 1)] && destroyed == old(destroyed)
      ensures forall x :: Managed(Alloc(), Free(), x) <==> old(Managed(Alloc(), Free(), x))
    {
      if size == 0 {
        return Refused;
      }
      var fit := FindFit(size);
      if fit.None? {
        return Refused;
      }
      // The assertion on the intersection: what was found must hold the size.
      if Range(fit.value.start, fit.value.start + size).Intersect(fit.value).Size() != size {
        return Stopped;
      }
      ghost var alloc, free := Alloc(), Free();
      var consumed := TakeFront(fit.value, size);
      ghost var o := made;
      Record(consumed, userObj);
      forall x ensures Managed(Alloc(), Free(), x) <==> Managed(alloc, free, x) {
        HandOutConserves(alloc, free, Free(), consumed, o, x);
      }
      r := Granted(consumed);
    }

    /** The search by size: the best fit up to 2^31; beyond it nothing, or a range that is too small. */
    method FindFit(size: nat) returns (fit: Option<Range>)
      requires FreeValid() && 0 < size < WORD
      ensures fit.Some? ==> fit.value.start in Free() && Free()[fit.value.start] == fit.value
      ensures !MisreadsSize(size) ==>
        && (fit.None? ==> forall k :: k in Free() ==> Free()[k].Size() < size)
        && (fit.Some? ==> BestFit(Free(), size, fit.value.start))
      ensures MisreadsSize(size) ==> fit.Some? && forall k :: k in Free() ==> Free()[k].Size() < size
    {
      ghost var bySize := freeBySizeTree.Contents();
      SizesLow(bySize, Free());
      freeBySizeTree.RootEntry();
      var smallest := freeBySizeTree.FirstGreaterThanOrEqualToBy(BySize(size));
      if size <= HALF {
        SizeAgrees(bySize, size);
        assert SizeKey(Range(0, size)) == size * WORD;
        CeilingIsBestFit(bySize, Free(), size, smallest);
      } else {
        SizeBackwards(bySize, size);
        if freeBySizeTree.shape.Node? {
          SizeKeyParts(bySize[freeBySizeTree.shape.item.key]);
        }
        forall k | k in Free()
          ensures Free()[k].Size() < HALF
        {
          FreeLow(Free(), k);
        }
      }
      fit := if smallest.None? then None else Some(smallest.value.1);
    }

    /** Makes the object for a new allocation, and the fragment that holds its first reference. */
    method Record(consumed: Range, userObj: U)
      requires FreeValid() && allocatedTree.Valid() && RefsOk(Alloc(), objs, destroyed, made)
      requires consumed.start !in Alloc() && AllocOk(Alloc()[consumed.start := Fragment(consumed, made)], Free())
      modifies this, allocatedTree
      ensures Valid()
      ensures Alloc() == old(Alloc())[consumed.start := Fragment(consumed, old(made))]
      ensures objs == old(objs)[old(made) := Refcounted(userObj, 1)]
      ensures destroyed == old(destroyed) && made == old(made) + 1
    {
      RefsAllocate(Alloc(), objs, destroyed, made, consumed, userObj);
      var o := made;
      objs, made := objs[o := Refcounted(userObj, 0)], made + 1;
      AddRef(o);
      assert objs == old(objs)[o := Refcounted(userObj, 1)];
      allocatedTree.InsertNew(consumed.start, Fragment(consumed, o));
    }

    /** Takes `fit` off both trees and puts back what lies behind its first `size` points. */
    method TakeFront(fit: Range, size: nat) returns (consumed: Range)
      requires FreeValid() && allocatedTree.Valid() && AllocOk(Alloc(), Free())
      requires fit.start in Free() && Free()[fit.start] == fit && 0 < size <= fit.Size()
      modifies freeBySizeTree, freeByStartTree
      ensures FreeValid() && consumed == Range(fit.start, fit.start + size)
      ensures forall x :: Covers(Free(), x) <==> old(Covers(Free(), x)) && !consumed.Has(x)
      ensures forall x :: consumed.Has(x) ==> old(Covers(Free(), x))
      ensures consumed.start !in Alloc()
      ensures forall o :: AllocOk(Alloc()[consumed.start := Fragment(consumed, o)], Free())
    {
      ghost var m := Free();
      consumed := Range(fit.start, fit.start + size);
      assert consumed.Intersect(fit).Size() == size;
      var leftover := Range(consumed.end, fit.end);
      CarveFront(freeBySizeTree.Contents(), m, fit.start, size);
      RemoveFreeRangeByStart(fit);
      if leftover.Size() > 0 {
        CreateEmptyRangeNoLock(leftover, 1);
      }
      FrontTaken(m, Free(), fit, size);
      HandedOut(Alloc(), m, Free(), consumed);
    }

    /** The allocated point's owner, and the fragment it lies in. */
    method LookupValue(value: nat) returns (r: Option<(U, Range)>)
      requires Valid() && value < WORD
      ensures r.None? <==> !Taken(Alloc(), value)
      ensures UserAt(Alloc(), objs, value) == if r.Some? then Some(r.value.0) else None
      ensures r.Some? ==>
        r.value.1.Has(value) && r.value.1.start in Alloc() && Alloc()[r.value.1.start].range == r.value.1
    {
      var e := FloorFragment(value);
      if e.Some? && e.value.1.range.Has(value) {
        RefsAt(Alloc(), objs, destroyed, made, e.value.0);
        assert Owned(Alloc(), value, e.value.1.obj);
        UserIs(Alloc(), Free(), objs, value, e.value.1.obj);
        return Some((objs[e.value.1.obj].user, e.value.1.range));
      }
      UserNone(Alloc(), objs, value);
      return None;
    }

    // ----- freeing -----

    /**
      Replaces the fragment at `k` by what is left of it on both sides of `overlap`, each holding its own
      reference.
     */
    method SplitFragment(k: int, overlap: Range)
      requires allocatedTree.Valid() && AllocOk(Alloc(), Free()) && RefsOk(Alloc(), objs, destroyed, made)
      requires Inside(Alloc(), k, overlap) && allocatedTree as object != freeByStartTree
      modifies this`objs, this`destroyed, allocatedTree
      ensures allocatedTree.Valid() && Alloc() == Cut(old(Alloc()), k, overlap)
      ensures RefsOk(Alloc(), objs, destroyed, made) && UsersKept(old(objs), objs)
      ensures destroyed == old(destroyed) || destroyed == old(destroyed) + [old(Alloc()[k].obj)]
    {
      RefsCut(Alloc(), Free(), objs, destroyed, made, k, overlap);
      RefsAt(Alloc(), objs, destroyed, made, k);
      ghost var o := Alloc()[k].obj;
      UsersCounting(objs, o, objs[o].refcount + Pieces(Alloc(), k, overlap) - 1);
      SwapFragment(k, overlap);
    }

    method SwapFragment(k: int, overlap: Range)
      requires allocatedTree.Valid() && AllocOk(Alloc(), Free()) && Inside(Alloc(), k, overlap)
      requires Alloc()[k].obj in objs && objs[Alloc()[k].obj].refcount > 0
      modifies this`objs, this`destroyed, allocatedTree
      ensures allocatedTree.Valid() && Alloc() == Cut(old(Alloc()), k, overlap)
      ensures var o := old(Alloc())[k].obj; var n := old(objs)[o].refcount + Pieces(old(Alloc()), k, overlap) - 1;
              objs == Counting(old(objs), o, n) && destroyed == old(destroyed) + if n == 0 then [o] else []
    {
      ghost var alloc := Alloc();
      var o := ReplaceFragment(k, overlap);
      ghost var n := old(objs)[o].refcount + Pieces(alloc, k, overlap);
      CountingTwice(old(objs), o, n, n - 1);
      DropRef(o);
    }

    /** Takes the new references; the old one is still held. */
    method ReplaceFragment(k: int, overlap: Range) returns (o: nat)
      requires allocatedTree.Valid() && AllocOk(Alloc(), Free()) && Inside(Alloc(), k, overlap)
      requires Alloc()[k].obj in objs && objs[Alloc()[k].obj].refcount > 0
      modifies this`objs, allocatedTree
      ensures allocatedTree.Valid() && Alloc() == Cut(old(Alloc()), k, overlap)
      ensures o == old(Alloc())[k].obj
      ensures objs == Counting(old(objs), o, old(objs)[o].refcount + Pieces(old(Alloc()), k, overlap))
    {
      CutStarts(Alloc(), Free(), k, overlap);
      var f := allocatedTree.Lookup(k);
      o := f.value.obj;
      var _ := allocatedTree.Remove(k);
      AddFragment(Range(f.value.range.start, overlap.start), o);
      AddFragment(Range(overlap.end, f.value.range.end), o);
      ghost var n := old(objs)[o].refcount;
      CountingTwice(old(objs), o, n, n);
      CountingTwice(old(objs), o, n + 1, n + 2);
    }

    /** A piece of a split fragment, if there is anything of it, takes a reference of its own. */
    method AddFragment(piece: Range, o: nat)
      requires allocatedTree.Valid() && o in objs && (piece.Size() > 0 ==> piece.start !in Alloc())
      modifies this`objs, allocatedTree
      ensures allocatedTree.Valid()
      ensures Alloc() == if piece.Size() > 0 then old(Alloc())[piece.start := Fragment(piece, o)] else old(Alloc())
      ensures objs == if piece.Size() > 0 then Counting(old(objs), o, old(objs)[o].refcount + 1) else old(objs)
    {
      if piece.Size() > 0 {
        AddRef(o);
        allocatedTree.InsertNew(piece.start, Fragment(piece, o));
      }
    }

    method FreeSubrange(k: int, overlap: Range)
      requires Valid() && Inside(Alloc(), k, overlap)
      modifies this`objs, this`destroyed, freeBySizeTree, freeByStartTree, allocatedTree
      ensures Valid()
      ensures Alloc() == Cut(old(Alloc()), k, overlap)
      ensures forall x :: Covers(Free(), x) <==> old(Covers(Free(), x)) || overlap.Has(x)
      ensures UsersKept(old(objs), objs)
      ensures destroyed == old(destroyed) || destroyed == old(destroyed) + [old(Alloc()[k].obj)]
    {
      ghost var m := Free();
      CutOk(Alloc(), m, k, overlap);
      OverlapOk(Alloc(), m, k, overlap);
      SplitFragment(k, overlap);
      CreateEmptyRangeNoLock(overlap, 0);
      CutClear(Alloc(), m, Free(), overlap);
    }

    /** The fragment found at or below a point holds it if any does, however the comparison went. */
    method FloorFragment(x: nat) returns (e: Option<(int, Fragment)>)
      requires Valid() && x < WORD
      ensures e.Some? ==>
        e.value.0 in Alloc() && Alloc()[e.value.0] == e.value.1 && e.value.1.range.start == e.value.0 <= x
      ensures Taken(Alloc(), x) <==> e.Some? && e.value.1.range.Has(x)
    {
      e := allocatedTree.FirstLessThanOrEqualToBy(ByStart(x));
      AllocLow(Alloc(), Free());
      if x <= HALF {
        StartAgrees(Alloc(), x);
        FloorHolds(Alloc(), Free(), x, e);
      } else {
        HighUntaken(Alloc(), Free(), x);
      }
    }

    /** The last fragment that starts up to the range, and what of the range it holds. */
    method FirstOverlap(range: Range) returns (first: Option<(int, Fragment)>, overlap: Range)
      requires Valid() && range.Size() > 0 && range.start < WORD
      ensures overlap.Size() == 0 <==> !Taken(Alloc(), range.start)
      ensures overlap.Size() > 0 ==>
        && first.Some? && Inside(Alloc(), first.value.0, overlap)
        && overlap.start == range.start && overlap.end <= range.end
    {
      first := FloorFragment(range.start);
      overlap := if first.None? then Range(0, 0) else range.Intersect(first.value.1.range);
    }

    /** A start beyond 2^31 with a tree whose root is so far below that it is taken for one above. */
    ghost predicate Misreads(start: nat)
      reads allocatedTree
    {
      && HALF < start && allocatedTree.shape.Node?
      && allocatedTree.shape.item.key < start - HALF
    }

    /**
      The next fragment from an unallocated point on. Nothing is allocated
      before it, nor before `limit` if there is none; but a start that is
      misread finds a fragment behind it.
     */
    method NextFragment(x: nat, ghost limit: nat) returns (next: Option<(int, Fragment)>, ghost hi: int)
      requires Valid() && !Taken(Alloc(), x) && x < WORD
      ensures next.Some? ==> next.value.0 in Alloc() && next.value.1.range.start == next.value.0 < HALF
      ensures next.Some? ==> ByStart(x)(next.value.0) > 0
      ensures Misreads(x) ==> next.Some? && next.value.0 < x - HALF
      ensures !Misreads(x) ==>
        && hi == (if next.None? || next.value.0 > limit then limit else next.value.0)
        && (next.Some? ==> x < next.value.0) && Untaken(Alloc(), x, hi)
    {
      next := allocatedTree.FirstGreaterThanOrEqualToBy(ByStart(x));
      AllocLow(Alloc(), Free());
      hi := if next.None? || next.value.0 > limit then limit else next.value.0;
      if x <= HALF {
        StartAgrees(Alloc(), x);
        GapAhead(Alloc(), Free(), x, next, hi);
      } else {
        StartBackwards(Alloc(), x);
        allocatedTree.RootEntry();
        if !Misreads(x) {
          assert next.None?;
          GapAhead(Alloc(), Free(), x, next, hi);
        }
      }
    }

    /** Up to where the freeing has come. */
    static function Reached(input: Range, from: nat, range: Range): nat {
      if range.Size() > 0 then range.start else EndOf(Range(from, input.end))
    }

    /**
      While freeing: the points between `from` and where `range` starts are done. Nothing is done yet if
      `range` starts beyond 2^31; if its start is misread, `from` is behind the input after that.
     */
    ghost predicate Freeing(input: Range, from: nat, range: Range, misread: bool,
                            alloc0: map<int, Fragment>, free0: map<int, Range>)
      reads this, freeBySizeTree, freeByStartTree, allocatedTree
    {
      var ok :=
        && range.end == input.end && range.start < WORD && from <= Reached(input, from, range)
        && Freed(alloc0, free0, Alloc(), Free(), from, Reached(input, from, range))
        && (if misread && range.start <= HALF then from in alloc0 && from < input.start - HALF else from == input.start)
        && (range.start > HALF ==>
              range == input && Alloc() == alloc0 && Free() == free0
              && misread == (input.Size() > 0 && Misreads(input.start)));
      ok
    }

    /** When freeing is over: everything from `from` to the end of the input is done. */
    ghost predicate FreeingOver(input: Range, from: nat, misread: bool,
                                alloc0: map<int, Fragment>, free0: map<int, Range>)
      reads this, freeBySizeTree, freeByStartTree, allocatedTree
    {
      var ok :=
        && Freed(alloc0, free0, Alloc(), Free(), from, EndOf(Range(from, input.end)))
        && (if misread then from in alloc0 && from < input.start - HALF else from == input.start);
      ok
    }

    /** Moves on to the next fragment, if there is one. */
    method SkipGap(input: Range, ghost from: nat, range: Range, ghost misread: bool,
                   ghost alloc0: map<int, Fragment>, ghost free0: map<int, Range>)
      returns (done: bool, range': Range, ghost from': nat)
      requires Valid() && range.Size() > 0 && !Taken(Alloc(), range.start)
      requires Freeing(input, from, range, misread, alloc0, free0)
      ensures if done then FreeingOver(input, from', misread, alloc0, free0)
              else Freeing(input, from', range', misread, alloc0, free0)
      ensures !done ==> range'.start <= HALF && (range.start <= HALF ==> range'.Size() < range.Size())
    {
      ghost var alloc, free := Alloc(), Free();
      var next;
      ghost var hi;
      next, hi := NextFragment(range.start, range.end);
      if Misreads(range.start) {
        from' := next.value.0;
        FreedNothing(alloc0, free0, from');
      } else {
        from' := from;
        FreedSkip(alloc0, free0, alloc, free, from, range.start, hi);
      }
      done := next.None?;
      range' := if done then range else Range(next.value.1.range.start, range.end);
    }

    /** A gap in what is to be freed is met only by an allocator that allows it. */
    lemma GapAllowed(input: Range, from: nat, range: Range, misread: bool,
                     alloc0: map<int, Fragment>, free0: map<int, Range>)
      requires Freeing(input, from, range, misread, alloc0, free0) && range.Size() > 0
      requires misread ==> HALF < input.start < input.end
      requires !Taken(Alloc(), range.start) && AllocOk(alloc0, free0)
      requires allowRedundantFrees || forall x :: input.Has(x) ==> Taken(alloc0, x)
      ensures allowRedundantFrees
    {
      RedundantFree(alloc0, free0, Alloc(), Free(), from, range.start);
      if misread {
        HighUntaken(alloc0, free0, input.start);
        assert input.Has(input.start);
      } else {
        assert input.Has(range.start);
      }
    }

    /** Frees the beginning of the range, which one fragment holds. */
    method FreeOverlap(k: int, overlap: Range, ghost input: Range, ghost from: nat, range: Range, ghost misread: bool,
                       ghost alloc0: map<int, Fragment>, ghost free0: map<int, Range>)
      requires Valid() && Freeing(input, from, range, misread, alloc0, free0)
      requires Inside(Alloc(), k, overlap) && overlap.start == range.start && overlap.end <= range.end
      modifies this`objs, this`destroyed, freeBySizeTree, freeByStartTree, allocatedTree
      ensures Valid() && Freeing(input, from, Range(overlap.end, range.end), misread, alloc0, free0)
      ensures old(destroyed) <= destroyed && UsersKept(old(objs), objs) && overlap.start < overlap.end < HALF
    {
      OverlapOk(Alloc(), Free(), k, overlap);
      FreeSubrange(k, overlap);
      FreedCut(alloc0, free0, old(Alloc()), old(Free()), from, k, overlap, Free());
    }

    /**
      Frees every allocated point of `input`; points of it that are not
      allocated are skipped, which only an allocator that allows redundant
      frees may do. Where the start is misread, the freeing begins at a
      fragment behind the input, `from`, instead.
     */
    method FreeRange(input: Range) returns (ghost from: nat)
      requires Valid() && input.start < WORD && input.end < WORD
      requires allowRedundantFrees || forall x :: input.Has(x) ==> Taken(Alloc(), x)
      modifies this`objs, this`destroyed, freeBySizeTree, freeByStartTree, allocatedTree
      ensures Valid()
      ensures forall x, o :: Owned(Alloc(), x, o) <==> old(Owned(Alloc(), x, o)) && !Range(from, input.end).Has(x)
      ensures forall x :: Covers(Free(), x) <==>
                old(Covers(Free(), x)) || (old(Taken(Alloc(), x)) && Range(from, input.end).Has(x))
      ensures if input.Size() > 0 && old(Misreads(input.start)) then from in old(Alloc()) && from < input.start - HALF
              else from == input.start
      ensures input.Size() == 0 || !old(Misreads(input.start)) <==>
                (forall x, o :: Owned(Alloc(), x, o) <==> old(Owned(Alloc(), x, o)) && !input.Has(x))
      ensures forall x :: UserAt(Alloc(), objs, x) ==
                if Range(from, input.end).Has(x) then None else old(UserAt(Alloc(), objs, x))
      ensures old(destroyed) <= destroyed && UsersKept(old(objs), objs)
      ensures forall x :: Managed(Alloc(), Free(), x) <==> old(Managed(Alloc(), Free(), x))
    {
      ghost var alloc0, free0 := Alloc(), Free();
      UsersSame(objs);
      ghost var misread := input.Size() > 0 && Misreads(input.start);
      var range := input;
      from := input.start;
      FreedNothing(alloc0, free0, from);
      while range.Size() > 0
        invariant Valid() && Freeing(input, from, range, misread, alloc0, free0)
        invariant old(destroyed) <= destroyed && UsersKept(old(objs), objs)
        decreases range.start > HALF, range.Size()
      {
        var first, overlap := FirstOverlap(range);
        if overlap.Size() == 0 {
          GapAllowed(input, from, range, misread, alloc0, free0);
          assert allowRedundantFrees;
          var done;
          done, range, from := SkipGap(input, from, range, misread, alloc0, free0);
          if done {
            break;
          }
        } else {
          ghost var objs' := objs;
          FreeOverlap(first.value.0, overlap, input, from, range, misread, alloc0, free0);
          UsersKeptTrans(old(objs), objs', objs);
          range := Range(overlap.end, range.end);
        }
      }
      assert FreeingOver(input, from, misread, alloc0, free0);
      FreedAll(alloc0, free0, Alloc(), Free(), Range(from, input.end));
      if misread {
        FreedBehind(alloc0, free0, Alloc(), input, from);
      }
      forall x
        ensures UserAt(Alloc(), objs, x) == if Range(from, input.end).Has(x) then None else UserAt(alloc0, old(objs), x)
      {
        UserOn(alloc0, free0, old(objs), Alloc(), Free(), objs, destroyed, made, Range(from, input.end), x);
      }
    }
  }

  /** A reachable misreading: freeing far-away points that nobody owns frees a fragment near zero. */
  method FreesOutside<U>(a: CoalescingAllocator<U>, o: nat)
    requires a.Valid() && a.allowRedundantFrees
    requires a.Alloc() == map[0x1000 := Fragment(Range(0x1000, 0x2000), o)]
    modifies a`objs, a`destroyed, a.freeBySizeTree, a.freeByStartTree, a.allocatedTree
    ensures a.Valid() && old(Taken(a.Alloc(), 0x1000)) && !Taken(a.Alloc(), 0x1000)
  {
    assert 0x1000 in a.allocatedTree.Contents();
    a.allocatedTree.RootEntry();
    assert a.Misreads(0xF000_0000);
    assert a.Alloc()[0x1000].range.Has(0x1000);
    ghost var from := a.FreeRange(Range(0xF000_0000, 0xF000_1000));
    TakenOwned(a.Alloc(), 0x1000);
  }
}
