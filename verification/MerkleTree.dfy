/** The Merkle tree of a ZFTP file as values: heap layout, node states and what validation means. */
module MerkleTrees {

  import opened LiteLog2
  import opened Words

  // ---------------------------------------------------------------- layout

  const BLOCK_SIZE: nat := 0x1_0000

  function NumBlocks(fileLength: nat): nat {
    (fileLength + (BLOCK_SIZE - 1)) % WORD / BLOCK_SIZE
  }

  /** The blocks cover the file exactly when rounding up stays inside 32 bits. */
  lemma BlocksCover(fileLength: nat)
    requires fileLength < WORD
    ensures fileLength <= NumBlocks(fileLength) * BLOCK_SIZE <==> fileLength + (BLOCK_SIZE - 1) < WORD
    ensures fileLength + (BLOCK_SIZE - 1) < WORD ==> NumBlocks(fileLength) * BLOCK_SIZE < fileLength + BLOCK_SIZE
  {
    if fileLength + (BLOCK_SIZE - 1) >= WORD {
      assert (fileLength + (BLOCK_SIZE - 1)) % WORD == fileLength + (BLOCK_SIZE - 1) - WORD < BLOCK_SIZE;
    }
  }

  function TreeDepth(numBlocks: nat): nat {
    if numBlocks == 0 then 0 else BitLength(numBlocks - 1)
  }

  function TreeSize(depth: nat): nat {
    Pow2(depth + 1) - 1
  }

  /** Where a block's hash is found: at its column of the bottom level. */
  function LeafLocation(depth: nat, block: nat): nat {
    Pow2(depth) - 1 + block
  }

  /** Every block of the file has a leaf inside the tree. */
  lemma LeafInTree(numBlocks: nat, block: nat)
    requires block < numBlocks
    ensures LeafLocation(TreeDepth(numBlocks), block) < TreeSize(TreeDepth(numBlocks))
  {
    DepthFits(numBlocks);
  }

  /** The leaves are the nodes of the tree without children in it, column by column. */
  lemma LeavesAreBottom(depth: nat, location: nat)
    ensures location < TreeSize(depth) <= LeftChild(location) <==>
            exists block: nat :: block < Pow2(depth) && location == LeafLocation(depth, block)
  {
    if location < TreeSize(depth) <= LeftChild(location) {
      var block := location - (Pow2(depth) - 1);
      assert location == LeafLocation(depth, block);
    }
  }

  /** Two neighbouring leaves share the parent at half their column, one level up. */
  lemma LeafParent(depth: nat, block: nat)
    requires depth > 0
    ensures LeafLocation(depth, block) != 0
    ensures Parent(LeafLocation(depth, block)) == LeafLocation(depth - 1, block / 2)
    ensures LeafLocation(depth, block) == if block % 2 == 0 then LeftChild(LeafLocation(depth - 1, block / 2))
                                          else RightChild(LeafLocation(depth - 1, block / 2))
  {
    assert Pow2(depth) == 2 * Pow2(depth - 1);
  }

  function LeftChild(location: nat): nat {
    (location + 1) * 2 - 1
  }

  function RightChild(location: nat): nat {
    LeftChild(location) + 1
  }

  function Sibling(location: nat): nat
    requires location != 0
  {
    if (location + 1) % 2 == 0 then location + 1 else location - 1
  }

  function Parent(location: nat): nat
    requires location != 0
  {
    (location + 1) / 2 - 1
  }

  /** The loop of `ceillg2`: the number of binary digits. */
  method CeilLg2(n: nat) returns (r: nat)
    ensures r == BitLength(n)
  {
    var m := n;
    r := 0;
    while m > 0
      invariant r + BitLength(m) == BitLength(n)
    {
      m := m / 2;
      r := r + 1;
    }
  }

  /** The bottom level has a leaf for every block, and no shallower tree has. */
  lemma DepthFits(numBlocks: nat)
    ensures numBlocks <= Pow2(TreeDepth(numBlocks))
    ensures forall d: nat :: numBlocks <= Pow2(d) ==> TreeDepth(numBlocks) <= d
  {
    var depth := TreeDepth(numBlocks);
    if numBlocks > 1 {
      BitLengthBounds(numBlocks - 1);
      forall d: nat | numBlocks <= Pow2(d)
        ensures depth <= d
      {
        if d < depth {
          Pow2Monotonic(d, depth - 1);
        }
      }
    }
  }

  /** The level a location is found at never lies below the leaves. */
  lemma LevelInTree(location: nat, depth: nat)
    requires location < TreeSize(depth)
    ensures BitLength(location + 1) - 1 <= depth
  {
    BitLengthBounds(location + 1);
    if BitLength(location + 1) - 1 > depth {
      Pow2Monotonic(depth + 1, BitLength(location + 1) - 1);
    }
  }

  /** Parents, children and siblings fit together. */
  lemma Family(c: nat)
    requires c > 0
    ensures var p := Parent(c);
      && p < c && LeftChild(p) % 2 == 1 && RightChild(p) == LeftChild(p) + 1
      && (c == LeftChild(p) || c == RightChild(p))
      && Sibling(c) == (if c == LeftChild(p) then RightChild(p) else LeftChild(p))
  {}

  // ---------------------------------------------------------------- nodes

  /** A node's hash means something from the moment it is at least tentative. */
  datatype Node<Hash> = Unknown | Tentative(hash: Hash) | Validated(hash: Hash)

  type Tree<Hash> = seq<Node<Hash>>

  predicate Known<Hash>(t: Tree<Hash>, i: nat) {
    i < |t| && !t[i].Unknown?
  }

  predicate BothKnown<Hash>(t: Tree<Hash>, p: nat) {
    Known(t, LeftChild(p)) && Known(t, RightChild(p))
  }

  /** The parent's hash is the hash of its children's. */
  predicate Matches<Hash(==)>(h: (Hash, Hash) -> Hash, t: Tree<Hash>, p: nat) {
    && Known(t, p) && BothKnown(t, p)
    && h(t[LeftChild(p)].hash, t[RightChild(p)].hash) == t[p].hash
  }

  predicate ChildrenValidated<Hash>(t: Tree<Hash>, p: nat) {
    && RightChild(p) < |t|
    && t[LeftChild(p)].Validated? && t[RightChild(p)].Validated?
  }

  /** The tree is full and its root is validated. */
  ghost predicate Rooted<Hash>(t: Tree<Hash>) {
    |t| % 2 == 1 && t[0].Validated?
  }

  /** Two known children imply a known parent, except perhaps at `hole`. */
  ghost predicate Upward<Hash>(t: Tree<Hash>, hole: nat) {
    forall p: nat {:trigger BothKnown(t, p)} :: BothKnown(t, p) && p != hole ==> Known(t, p)
  }

  /** A validated child has a validated sibling, and together they hash to their parent. */
  ghost predicate Backed<Hash>(h: (Hash, Hash) -> Hash, t: Tree<Hash>) {
    forall p: nat {:trigger Matches(h, t, p)} {:trigger ChildrenValidated(t, p)} :: RightChild(p) < |t| ==>
      (t[LeftChild(p)].Validated? || t[RightChild(p)].Validated? ==> ChildrenValidated(t, p) && Matches(h, t, p))
  }

  lemma BackedAt<Hash>(h: (Hash, Hash) -> Hash, t: Tree<Hash>, p: nat)
    requires Backed(h, t) && RightChild(p) < |t|
    ensures t[LeftChild(p)].Validated? || t[RightChild(p)].Validated? ==> ChildrenValidated(t, p) && Matches(h, t, p)
  {}

  /** What waits for validation has both children known. */
  ghost predicate Tracked<Hash>(t: Tree<Hash>, parents: set<nat>) {
    forall p :: p in parents ==> BothKnown(t, p)
  }

  /** Whatever matches and does not wait is validated already. */
  ghost predicate Settled<Hash>(h: (Hash, Hash) -> Hash, t: Tree<Hash>, parents: set<nat>) {
    forall p: nat {:trigger Matches(h, t, p)} :: Matches(h, t, p) && p !in parents ==> ChildrenValidated(t, p)
  }

  /** What every step of `install_reply` keeps. */
  ghost predicate Sound<Hash>(h: (Hash, Hash) -> Hash, t: Tree<Hash>, parents: set<nat>) {
    var ok := Rooted(t) && Upward(t, |t|) && Backed(h, t) && Tracked(t, parents) && Settled(h, t, parents);
    ok
  }

  /** Half way up: `loc` is about to become known, perhaps because its children are. */
  ghost predicate Rising<Hash>(h: (Hash, Hash) -> Hash, t: Tree<Hash>, parents: set<nat>, loc: nat) {
    var ok :=
      && Rooted(t) && Upward(t, loc) && Backed(h, t) && Tracked(t, parents) && Settled(h, t, parents)
      && 0 < loc < |t| && t[loc].Unknown?
      && (BothKnown(t, loc) ==> loc in parents);
    ok
  }

  lemma SoundRising<Hash>(h: (Hash, Hash) -> Hash, t: Tree<Hash>, parents: set<nat>, loc: nat)
    requires Sound(h, t, parents) && loc < |t| && t[loc].Unknown?
    ensures Rising(h, t, parents, loc)
  {}

  /** The set after `_track_parent_of_tentative_nodes`. */
  function Track<Hash>(t: Tree<Hash>, parents: set<nat>, p: nat): set<nat> {
    if BothKnown(t, p) then parents + {p} else parents
  }

  lemma Matchless<Hash>(h: (Hash, Hash) -> Hash, t: Tree<Hash>, loc: nat, hash: Hash, p: nat)
    requires 0 < loc < |t| && t[loc].Unknown? && p != loc && p != Parent(loc)
    ensures var t' := t[loc := Tentative(hash)];
      && (BothKnown(t', p) <==> BothKnown(t, p)) && (Matches(h, t', p) <==> Matches(h, t, p))
      && (ChildrenValidated(t', p) <==> ChildrenValidated(t, p))
  {}

  /** Marking a node leaves at most its parent to be marked in turn. */
  lemma MarkStep<Hash>(h: (Hash, Hash) -> Hash, t: Tree<Hash>, parents: set<nat>, loc: nat, hash: Hash)
    requires Rising(h, t, parents, loc)
    ensures var t', p := t[loc := Tentative(hash)], Parent(loc);
      var parents' := Track(t', parents, p);
      if t'[p].Unknown? && !t'[Sibling(loc)].Unknown? then Rising(h, t', parents', p) else Sound(h, t', parents')
  {
    Family(loc);
    var t', p := t[loc := Tentative(hash)], Parent(loc);
    var parents' := Track(t', parents, p);
    MarkBacked(h, t, loc, hash);
    MarkSettled(h, t, parents, loc, hash);
    forall q: nat | BothKnown(t', q) && q != p
      ensures Known(t', q)
    {
      if q != loc {
        Matchless(h, t, loc, hash, q);
      }
    }
  }

  lemma MarkBacked<Hash>(h: (Hash, Hash) -> Hash, t: Tree<Hash>, loc: nat, hash: Hash)
    requires Backed(h, t) && 0 < loc < |t| && |t| % 2 == 1 && t[loc].Unknown?
    ensures Backed(h, t[loc := Tentative(hash)])
  {
    Family(loc);
    var t' := t[loc := Tentative(hash)];
    forall q: nat | RightChild(q) < |t'|
      ensures t'[LeftChild(q)].Validated? || t'[RightChild(q)].Validated? ==>
                ChildrenValidated(t', q) && Matches(h, t', q)
    {
      BackedAt(h, t, q);
      if q != loc && q != Parent(loc) {
        Matchless(h, t, loc, hash, q);
      }
    }
  }

  lemma MarkSettled<Hash>(h: (Hash, Hash) -> Hash, t: Tree<Hash>, parents: set<nat>, loc: nat, hash: Hash)
    requires Settled(h, t, parents) && Tracked(t, parents) && 0 < loc < |t| && t[loc].Unknown?
    requires BothKnown(t, loc) ==> loc in parents
    ensures var t' := t[loc := Tentative(hash)];
      var parents' := Track(t', parents, Parent(loc));
      Settled(h, t', parents') && Tracked(t', parents')
  {
    Family(loc);
    var t' := t[loc := Tentative(hash)];
    var parents' := Track(t', parents, Parent(loc));
    forall q: nat | Matches(h, t', q) && q !in parents'
      ensures ChildrenValidated(t', q)
    {
      if q != loc && q != Parent(loc) {
        Matchless(h, t, loc, hash, q);
      }
    }
    forall q | q in parents'
      ensures BothKnown(t', q)
    {
      if q != loc && q != Parent(loc) {
        Matchless(h, t, loc, hash, q);
      }
    }
  }

  // ---------------------------------------------------------------- validation

  function Promote<Hash>(t: Tree<Hash>, p: nat): Tree<Hash>
    requires BothKnown(t, p)
  {
    var l, r := LeftChild(p), RightChild(p);
    t[l := Validated(t[l].hash)][r := Validated(t[r].hash)]
  }

  /** The tree after `_validate_children`. */
  function Checked<Hash(==)>(h: (Hash, Hash) -> Hash, t: Tree<Hash>, p: nat): Tree<Hash>
    requires BothKnown(t, p)
  {
    if Matches(h, t, p) then Promote(t, p) else t
  }

  /** Hashes once known stay, and nothing is taken back. */
  ghost predicate Keeps<Hash>(t: Tree<Hash>, t': Tree<Hash>) {
    && |t| == |t'|
    && forall i: nat :: Known(t, i) ==>
         Known(t', i) && t'[i].hash == t[i].hash && (t[i].Validated? ==> t'[i].Validated?)
  }

  ghost predicate SameHashes<Hash>(t: Tree<Hash>, t': Tree<Hash>) {
    && |t| == |t'|
    && forall i: nat :: (Known(t, i) <==> Known(t', i)) && (Known(t, i) ==> t'[i].hash == t[i].hash)
  }

  lemma MatchesSame<Hash>(h: (Hash, Hash) -> Hash, t: Tree<Hash>, t': Tree<Hash>, p: nat)
    requires SameHashes(t, t')
    ensures Matches(h, t', p) <==> Matches(h, t, p)
    ensures BothKnown(t', p) <==> BothKnown(t, p)
  {}

  lemma CheckedKeeps<Hash>(h: (Hash, Hash) -> Hash, t: Tree<Hash>, p: nat)
    requires BothKnown(t, p)
    ensures SameHashes(t, Checked(h, t, p)) && Keeps(t, Checked(h, t, p))
    ensures forall q: nat :: q != p ==> (ChildrenValidated(Checked(h, t, p), q) <==> ChildrenValidated(t, q))
    ensures Matches(h, t, p) ==> ChildrenValidated(Checked(h, t, p), p)
  {}

  lemma CheckStep<Hash>(h: (Hash, Hash) -> Hash, t: Tree<Hash>, parents: set<nat>, p: nat)
    requires Sound(h, t, parents) && p in parents
    ensures Sound(h, Checked(h, t, p), parents - {p})
  {
    var t' := Checked(h, t, p);
    CheckedKeeps(h, t, p);
    forall q: nat
      ensures (Matches(h, t', q) <==> Matches(h, t, q)) && (BothKnown(t', q) <==> BothKnown(t, q))
    {
      MatchesSame(h, t, t', q);
    }
    forall q: nat | RightChild(q) < |t'|
      ensures t'[LeftChild(q)].Validated? || t'[RightChild(q)].Validated? ==>
                ChildrenValidated(t', q) && Matches(h, t', q)
    {
      BackedAt(h, t, q);
      if q != p {
        assert t'[LeftChild(q)] == t[LeftChild(q)] && t'[RightChild(q)] == t[RightChild(q)];
      }
    }
  }

  // ---------------------------------------------------------------- what validation is worth

  /** The node and everything above it is validated. */
  predicate PathValidated<Hash>(t: Tree<Hash>, loc: nat)
    decreases loc
  {
    loc < |t| && t[loc].Validated? && (loc > 0 ==> PathValidated(t, Parent(loc)))
  }

  /** Every step from the node to the root is a hash of two children. */
  predicate Authentic<Hash(==)>(h: (Hash, Hash) -> Hash, t: Tree<Hash>, loc: nat)
    decreases loc
  {
    Known(t, loc) && (loc > 0 ==> Matches(h, t, Parent(loc)) && Authentic(h, t, Parent(loc)))
  }

  predicate PathKnown<Hash>(t: Tree<Hash>, loc: nat)
    decreases loc
  {
    loc < |t| && (loc > 0 ==> Known(t, Sibling(loc)) && PathKnown(t, Parent(loc)))
  }

  /** The root hash that `x` at `loc` leads to, hashing upwards with the siblings' hashes. */
  function Recompute<Hash>(h: (Hash, Hash) -> Hash, t: Tree<Hash>, loc: nat, x: Hash): Hash
    requires PathKnown(t, loc)
    decreases loc
  {
    if loc == 0 then x
    else
      var y := t[Sibling(loc)].hash;
      Recompute(h, t, Parent(loc), if loc < Sibling(loc) then h(x, y) else h(y, x))
  }

  /** A path of validated nodes is authentic, in the middle of an installation too. */
  lemma {:induction false} PathAuthentic<Hash>(h: (Hash, Hash) -> Hash, t: Tree<Hash>, parents: set<nat>, loc: nat)
    requires Sound(h, t, parents) && PathValidated(t, loc)
    ensures Authentic(h, t, loc)
    decreases loc
  {
    if loc > 0 {
      Family(loc);
      PathAuthentic(h, t, parents, Parent(loc));
      BackedAt(h, t, Parent(loc));
    }
  }

  /** At rest, exactly the authentic nodes have validated paths. */
  lemma {:induction false} PathIff<Hash>(h: (Hash, Hash) -> Hash, t: Tree<Hash>, loc: nat)
    requires Sound(h, t, {})
    ensures PathValidated(t, loc) <==> Authentic(h, t, loc)
    decreases loc
  {
    if PathValidated(t, loc) {
      PathAuthentic(h, t, {}, loc);
    }
    if loc > 0 {
      Family(loc);
      PathIff(h, t, Parent(loc));
    }
  }

  /** An authentic node leads to the root's hash. */
  lemma {:induction false} AuthenticRecomputes<Hash>(h: (Hash, Hash) -> Hash, t: Tree<Hash>, loc: nat)
    requires Rooted(t) && Authentic(h, t, loc)
    ensures PathKnown(t, loc) && Recompute(h, t, loc, t[loc].hash) == t[0].hash
    decreases loc
  {
    if loc > 0 {
      Family(loc);
      AuthenticRecomputes(h, t, Parent(loc));
    }
  }

  /** Two different inputs with one value. */
  ghost predicate Collide<A, B, C>(f: (A, B) -> C, p: (A, B), q: (A, B)) {
    p != q && f(p.0, p.1) == f(q.0, q.1)
  }

  /** Two trees with one root hash agree on an authentic node, or show a collision of the hash. */
  lemma {:induction false} AuthenticUnique<Hash>(h: (Hash, Hash) -> Hash, t: Tree<Hash>, u: Tree<Hash>, loc: nat)
    returns (p: (Hash, Hash), q: (Hash, Hash))
    requires Rooted(t) && Authentic(h, t, loc) && Rooted(u) && Authentic(h, u, loc)
    requires t[0].hash == u[0].hash
    ensures t[loc].hash == u[loc].hash || Collide(h, p, q)
    decreases loc
  {
    p, q := (t[0].hash, t[0].hash), (t[0].hash, t[0].hash);
    if loc > 0 {
      Family(loc);
      var up := Parent(loc);
      var l, r := LeftChild(up), RightChild(up);
      p, q := AuthenticUnique(h, t, u, up);
      if !Collide(h, p, q) {
        p, q := (t[l].hash, t[r].hash), (u[l].hash, u[r].hash);
      }
    }
  }
}
