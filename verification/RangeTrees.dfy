/**
  Trees of ranges searched with the keys' own 32-bit comparisons: where these
  agree with the order of the tree, and where they run against it.
 */
module RangeTrees {
  import opened Ranges
  import opened Avl
  import opened Words

  /** How the entry under start `k` compares with a range that starts at `start`. */
  function ByStart(start: int): int -> int {
    k => Diff32(k, start)
  }

  /** How the entry under size key `q` compares with a range of `size` from 0. */
  function BySize(size: int): int -> int {
    q => if Diff32(q / WORD, size) != 0 then Diff32(q / WORD, size) else Diff32(q % WORD, 0)
  }

  /** These are the comparisons of the source. */
  lemma SightIsCmp(a: Range, b: Range)
    requires a.start < WORD
    ensures ByStart(b.start)(StartKey(a)) == CmpByStart(a, b)
    ensures b.start == 0 ==> BySize(b.Size())(SizeKey(a)) == CmpBySize(a, b)
  {
    SizeKeyParts(a);
  }

  lemma SizeKeyParts(a: Range)
    requires a.start < WORD
    ensures SizeKey(a) / WORD == a.Size() && SizeKey(a) % WORD == a.start
  {}

  /** Keys below 2^31, as the trees hold them. */
  ghost predicate Low<V>(m: map<int, V>) {
    forall k :: k in m ==> 0 <= k < HALF
  }

  /** Keys that are size keys of ranges below 2^31. */
  ghost predicate LowSizes(m: map<int, Range>) {
    forall q :: q in m ==> q == SizeKey(m[q]) && m[q].Proper()
  }

  /** A low word against any word: the signed difference misses only what is more than 2^31 apart. */
  lemma LowDiff(k: int, w: int)
    requires 0 <= k < HALF && 0 <= w < WORD
    ensures Diff32(k, w) == if k < w - HALF then k - w + WORD else k - w
  {}

  /** Up to 2^31 a start is sought in the order of the tree. */
  lemma StartAgrees<V>(m: map<int, V>, start: int)
    requires Low(m) && 0 <= start <= HALF
    ensures AVLTree<V>.SeenAs(m, ByStart(start), start)
  {
    forall k | k in m
      ensures (ByStart(start)(k) < 0 <==> k < start) && (ByStart(start)(k) == 0 <==> k == start)
    {
      LowDiff(k, start);
    }
  }

  /** Beyond it the entries more than 2^31 below are taken for ones above. */
  lemma StartBackwards<V>(m: map<int, V>, start: int)
    requires Low(m) && HALF < start < WORD
    ensures AVLTree<V>.SeenBackwards(m, ByStart(start))
    ensures forall k :: k in m ==> (ByStart(start)(k) > 0 <==> k < start - HALF)
  {
    forall k | k in m
      ensures ByStart(start)(k) != 0 && (ByStart(start)(k) > 0 <==> k < start - HALF)
    {
      LowDiff(k, start);
    }
  }

  /** The same for sizes. */
  lemma SizeAgrees(m: map<int, Range>, size: int)
    requires LowSizes(m) && 0 <= size <= HALF
    ensures AVLTree<Range>.SeenAs(m, BySize(size), size * WORD)
  {
    forall q | q in m
      ensures (BySize(size)(q) < 0 <==> q < size * WORD) && (BySize(size)(q) == 0 <==> q == size * WORD)
    {
      SizeKeyParts(m[q]);
      LowDiff(m[q].Size(), size);
      LowDiff(m[q].start, 0);
    }
  }

  lemma SizeBackwards(m: map<int, Range>, size: int)
    requires LowSizes(m) && HALF < size < WORD
    ensures AVLTree<Range>.SeenBackwards(m, BySize(size))
    ensures forall q :: q in m ==> (BySize(size)(q) > 0 <==> m[q].Size() < size - HALF)
  {
    forall q | q in m
      ensures BySize(size)(q) != 0 && (BySize(size)(q) > 0 <==> m[q].Size() < size - HALF)
    {
      SizeKeyParts(m[q]);
      LowDiff(m[q].Size(), size);
    }
    forall p, q | p in m && q in m && p < q
      ensures m[p].Size() <= m[q].Size()
    {
      SizeKeyParts(m[p]);
      SizeKeyParts(m[q]);
    }
  }
}
