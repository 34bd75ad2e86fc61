/**
  The AVL tree with parent links: `AVLTree` of avl2.h and the linked code of
  `AVLNodeLogic` in avl2logic.h. Each method walks and rewrites the node store
  as the source does and is proved against the value functions of `AvlShape`
  and `AvlSpec`; the ghost field `shape` is the tree the store stands for.
 */
module Avl {
  import opened AvlShape
  import opened AvlNodes
  import opened AvlSpec
  import opened AvlSearch
  import AvlWalk
  import opened Options
  import opened Words

  /** The counters wrap at 32 bits; their difference is the node count modulo 2^32. */
  predicate Counted(insertions: nat, deletions: nat, n: nat) {
    var counted := insertions < WORD && deletions < WORD && (insertions - deletions) % WORD == n % WORD;
    counted
  }

  lemma CountInsertion(insertions: nat, deletions: nat, n: nat)
    requires Counted(insertions, deletions, n)
    ensures Counted((insertions + 1) % WORD, deletions, n + 1)
  {}

  lemma CountDeletion(insertions: nat, deletions: nat, n: nat)
    requires Counted(insertions, deletions, n) && n > 0
    ensures Counted(insertions, (deletions + 1) % WORD, n - 1)
  {}

  lemma CountZero(insertions: nat, deletions: nat, n: nat)
    requires Counted(insertions, deletions, n) && n < WORD
    ensures insertions == deletions <==> n == 0
    ensures insertions >= deletions ==> insertions - deletions == n
  {}

  class AVLTree<V> {
    var store: Store<V>
    var tree: Ptr
    var insertions: nat
    var deletions: nat
    var singleRotations: nat
    var doubleRotations: nat
    ghost var shape: Tree<V>
    ghost var contents: map<int, V>

    /**
      The store and the root link are the linked image of `Plug(c, t)`. It is stated
      through `Opened` so that methods which only hand it on do not look inside.
     */
    ghost predicate InPlace(c: Ctx<V>, t: Tree<V>)
      reads this
    {
      forall z: Tree<V> {:trigger Opened(z)} :: Opened(z) && z == t ==> Holds(store, c, t) && tree == RootOf(c, Root(t))
    }

    static ghost predicate Opened(t: Tree<V>) { true }

    lemma Look(c: Ctx<V>, t: Tree<V>)
      requires InPlace(c, t)
      ensures Holds(store, c, t) && tree == RootOf(c, Root(t))
    {
      assert Opened(t);
    }

    /** The node in the hole. */
    lemma LookAt(c: Ctx<V>, t: Tree<V>)
      requires InPlace(c, t) && t.Node?
      ensures Root(t) != 0 && Root(t) in store
      ensures store[Root(t)] == Cell(Root(t.left), Root(t.right), At(c), t.bal, t.item.key, t.item.value)
      ensures (Root(t.left) == 0 <==> t.left.Leaf?) && (Root(t.right) == 0 <==> t.right.Leaf?)
    {
      assert Opened(t);
    }

    /** The node around the hole. */
    lemma LookAround(c: Ctx<V>, t: Tree<V>)
      requires InPlace(c, t) && c != Top
      ensures At(c) != 0 && At(c) in store && store[At(c)].bal == c.bal
    {
      assert Opened(t);
    }

    /** Following a link down moves the hole. */
    lemma StepDown(c: Ctx<V>, t: Tree<V>)
      requires InPlace(c, t) && t.Node?
      ensures InPlace(InLeft(t.item, t.bal, t.right, c), t.left) && InPlace(InRight(t.left, t.item, t.bal, c), t.right)
    {
      assert Opened(t);
      HoldsFill(store, InLeft(t.item, t.bal, t.right, c), t.left);
      HoldsFill(store, InRight(t.left, t.item, t.bal, c), t.right);
    }

    /** `t` fits the hole: the whole tree is balanced. */
    static ghost predicate Fitting(c: Ctx<V>, t: Tree<V>) {
      var fitting := Avl(t) && AvlCtx(c, Height(t));
      fitting
    }

    /** The hole's subtree, `t`, is one deeper than its context was balanced for. */
    static ghost predicate Growing(c: Ctx<V>, t: Tree<V>) {
      var growing := Avl(t) && Grown(t) && AvlCtx(c, Height(t) - 1);
      growing
    }

    /** The hole's subtree, `t`, is one shorter than its context was balanced for. */
    static ghost predicate Shrinking(c: Ctx<V>, t: Tree<V>) {
      var shrinking := Avl(t) && AvlCtx(c, Height(t) + 1);
      shrinking
    }

    /** `self` is linked from the hole of `c`, and knows its parent. */
    static ghost predicate Hanging(s: Store<V>, root: Ptr, self: Ptr, c: Ctx<V>) {
      var hanging :=
        && self in s && s[self].parent == At(c) && root == RootOf(c, self)
        && (c == Top <==> At(c) == 0)
        && (c != Top ==> At(c) in s && At(c) != self)
        && (c != Top ==> (s[At(c)].left == self <==> c.InLeft?) && (s[At(c)].right == self <==> c.InRight?));
      hanging
    }

    lemma IsHanging(c: Ctx<V>, t: Tree<V>)
      requires InPlace(c, t) && t.Node?
      ensures Hanging(store, tree, Root(t), c)
    {
      assert Opened(t);
    }

    /** Link `q` where `self` hangs: below its parent, or as the root. */
    static method Promote(s: Store<V>, root: Ptr, self: Ptr, q: Ptr, ghost c: Ctx<V>) returns (s': Store<V>, root': Ptr)
      requires Hanging(s, root, self, c)
      ensures root' == RootOf(c, q)
      ensures s' == Promoted(s, c, q) && s'.Keys == s.Keys && Keeps(s, s', {At(c)})
      ensures c != Top ==> Relinked(s, s', c, q)
    {
      s', root' := s, root;
      var parent := s[self].parent;
      if parent != 0 {
        if s[parent].left == self {
          s' := SetLeft(s, parent, q);
        } else {
          assert s[parent].right == self;
          s' := SetRight(s, parent, q);
        }
      } else {
        assert root == self;
        root' := q;
      }
    }

    method SingleRotate(self: Ptr, child: Ptr, side: Balance, ghost c: Ctx<V>, ghost t: Tree<V>)
      requires InPlace(c, t)
      requires CanSingle(t, side) && self == Root(t)
      requires child == Root(if side == AVLRight then t.right else t.left)
      modifies this`store, this`tree, this`singleRotations
      ensures InPlace(c, SingleRotated(t, side))
      ensures store.Keys == old(store.Keys) && singleRotations == (old(singleRotations) + 1) % WORD
    {
      assert Opened(t);
      singleRotations := (singleRotations + 1) % WORD;
      SingleReady(store, c, t, side);
      IsHanging(c, t);
      var s, root := Promote(store, tree, self, child, c);
      s := TurnSingle(s, self, child, side);
      store, tree := s, root;
      SingleDone(old(store), store, c, t, side);
    }

    /** The links and balance factors a single rotation rewrites below the promoted child. */
    static method TurnSingle(s: Store<V>, self: Ptr, child: Ptr, side: Balance) returns (s': Store<V>)
      requires SingleNodes(s, self, child, side)
      ensures SingleTurned(s, s', self, child, side)
    {
      s' := SetParent(s, child, s[self].parent);
      if side == AVLRight {
        s' := SetRight(s', self, s'[child].left);
        if s'[self].right != 0 {
          s' := SetParent(s', s'[self].right, self);
        }
        s' := SetLeft(s', child, self);
        s' := SetParent(s', self, child);
      } else {
        s' := SetLeft(s', self, s'[child].right);
        if s'[self].left != 0 {
          s' := SetParent(s', s'[self].left, self);
        }
        s' := SetRight(s', child, self);
        s' := SetParent(s', self, child);
      }
      s' := SetBalance(s', self, AVLBalanced);
      s' := SetBalance(s', child, AVLBalanced);
    }

    method DoubleRotate(self: Ptr, child: Ptr, grandchild: Ptr, side: Balance, ghost c: Ctx<V>, ghost t: Tree<V>)
      requires InPlace(c, t)
      requires CanDouble(t, side) && self == Root(t)
      requires child == Root(if side == AVLRight then t.right else t.left)
      requires grandchild == Root(if side == AVLRight then t.right.left else t.left.right)
      modifies this`store, this`tree, this`doubleRotations
      ensures InPlace(c, DoubleRotated(t, side))
      ensures store.Keys == old(store.Keys) && doubleRotations == (old(doubleRotations) + 1) % WORD
    {
      assert Opened(t);
      doubleRotations := (doubleRotations + 1) % WORD;
      DoubleReady(store, c, t, side);
      IsHanging(c, t);
      var s, root := Promote(store, tree, self, grandchild, c);
      s := TurnDouble(s, self, child, grandchild, side);
      store, tree := s, root;
      if side == AVLRight {
        DoubleDoneRight(old(store), store, c, t);
      } else {
        DoubleDoneLeft(old(store), store, c, t);
      }
    }

    /** The links and balance factors a double rotation rewrites below the promoted grandchild. */
    static method TurnDouble(s: Store<V>, self: Ptr, child: Ptr, grandchild: Ptr, side: Balance) returns (s': Store<V>)
      requires DoubleNodes(s, self, child, grandchild)
      ensures DoubleTurned(s, s', self, child, grandchild, side)
    {
      var beta := if side == AVLRight then s[grandchild].left else s[grandchild].right;
      var gamma := if side == AVLRight then s[grandchild].right else s[grandchild].left;
      s' := SetParent(s, grandchild, s[self].parent);
      if side == AVLRight {
        s' := SetRight(s', grandchild, child);
        s' := SetLeft(s', grandchild, self);
      } else {
        s' := SetRight(s', grandchild, self);
        s' := SetLeft(s', grandchild, child);
      }
      s' := SetParent(s', self, grandchild);
      s' := SetParent(s', child, grandchild);
      if side == AVLRight {
        s' := SetLeft(SetRight(s', self, beta), child, gamma);
      } else {
        s' := SetRight(SetLeft(s', self, beta), child, gamma);
      }
      if beta != 0 {
        s' := SetParent(s', beta, self);
      }
      if gamma != 0 {
        s' := SetParent(s', gamma, child);
      }
      s' := SetBalance(s', self, SelfBalance(s[grandchild].bal, side));
      s' := SetBalance(s', child, ChildBalance(s[grandchild].bal, side));
      s' := SetBalance(s', grandchild, AVLBalanced);
    }

    // ----- the insertion walk -----

    /** Set the balance factor of the node around the hole; the hole is then that node's own place. */
    method Tilt(self: Ptr, b: Balance, ghost c: Ctx<V>, ghost t: Tree<V>)
      requires c != Top && self == At(c) && InPlace(c, t)
      modifies this`store
      ensures var f := FillAs(c, t, b);
              InPlace(c.up, f) && InPlace(Top, Plug(c.up, f))
      ensures store.Keys == old(store.Keys)
    {
      assert Opened(t);
      Rebalanced(store, c, t, b);
      store := SetBalance(store, self, b);
      Settle(c.up, FillAs(c, t, b));
    }

    /** The subtree on the right of `self` just got one deeper. */
    method RightAdded(self: Ptr, ghost c: Ctx<V>, ghost t: Tree<V>)
      requires c.InRight? && self == At(c) && InPlace(c, t)
      requires Growing(c, t)
      modifies this`store, this`tree, this`singleRotations, this`doubleRotations
      ensures InPlace(Top, Grow(c, t))
      ensures store.Keys == old(store.Keys)
      decreases c, 0
    {
      LookAround(c, t);
      var balance := store[self].bal;
      assert balance == c.bal != AVLNew;
      assert Side(c) == AVLRight && Other(Side(c)) == AVLLeft;
      if balance == AVLLeft {
        Tilt(self, AVLBalanced, c, t);
        assert Grow(c, t) == Plug(c.up, FillAs(c, t, AVLBalanced));
      } else if balance == AVLBalanced {
        GrowTilt(c, t);
        Tilt(self, AVLRight, c, t);
        Deeper(self, c.up, FillAs(c, t, AVLRight));
        assert Grow(c, t) == Grow(c.up, FillAs(c, t, AVLRight));
      } else {
        assert balance == AVLRight;
        RotateGrown(self, AVLRight, c, t);
      }
    }

    /** The subtree on the left of `self` just got one deeper. */
    method LeftAdded(self: Ptr, ghost c: Ctx<V>, ghost t: Tree<V>)
      requires c.InLeft? && self == At(c) && InPlace(c, t)
      requires Growing(c, t)
      modifies this`store, this`tree, this`singleRotations, this`doubleRotations
      ensures InPlace(Top, Grow(c, t))
      ensures store.Keys == old(store.Keys)
      decreases c, 0
    {
      LookAround(c, t);
      var balance := store[self].bal;
      assert balance == c.bal != AVLNew;
      assert Side(c) == AVLLeft && Other(Side(c)) == AVLRight;
      if balance == AVLRight {
        Tilt(self, AVLBalanced, c, t);
        assert Grow(c, t) == Plug(c.up, FillAs(c, t, AVLBalanced));
      } else if balance == AVLBalanced {
        GrowTilt(c, t);
        Tilt(self, AVLLeft, c, t);
        Deeper(self, c.up, FillAs(c, t, AVLLeft));
        assert Grow(c, t) == Grow(c.up, FillAs(c, t, AVLLeft));
      } else {
        assert balance == AVLLeft;
        RotateGrown(self, AVLLeft, c, t);
      }
    }

    /** The already deep side of `self` grew: rotate. */
    method RotateGrown(self: Ptr, side: Balance, ghost c: Ctx<V>, ghost t: Tree<V>)
      requires c != Top && c.bal == Side(c) == side && self == At(c)
      requires InPlace(c, t)
      requires Growing(c, t)
      modifies this`store, this`tree, this`singleRotations, this`doubleRotations
      ensures InPlace(Top, Grow(c, t))
      ensures store.Keys == old(store.Keys)
    {
      assert Opened(t);
      GrownChild(c, t);
      var child := if side == AVLRight then store[self].right else store[self].left;
      assert child != 0;
      if store[child].bal == side {
        SingleRotate(self, child, side, c.up, Fill(c, t));
      } else {
        assert store[child].bal == Other(side);
        var grandchild := if side == AVLRight then store[child].left else store[child].right;
        DoubleRotate(self, child, grandchild, side, c.up, Fill(c, t));
      }
      Settle(c.up, GrownRotation(Fill(c, t), side));
    }

    /** `self` got deeper but stayed balanced enough: go on at its parent, if any. */
    method Deeper(self: Ptr, ghost c: Ctx<V>, ghost t: Tree<V>)
      requires t.Node? && self == Root(t) && InPlace(c, t)
      requires Growing(c, t)
      modifies this`store, this`tree, this`singleRotations, this`doubleRotations
      ensures InPlace(Top, Grow(c, t))
      ensures store.Keys == old(store.Keys)
      decreases c, 1
    {
      assert Opened(t);
      var parent := store[self].parent;
      if parent != 0 {
        HoleSide(store, c, t);
        if store[parent].right == self {
          RightAdded(parent, c, t);
        } else {
          assert store[parent].left == self;
          LeftAdded(parent, c, t);
        }
      }
    }

    /** A walk stops: the held tree is the plugged one. */
    lemma Settle(c: Ctx<V>, t: Tree<V>)
      ensures InPlace(c, t) <==> InPlace(Top, Plug(c, t))
    {
      assert Opened(t) && Opened(Plug(c, t));
      HoldsPlug(store, c, t);
      RootOfPlug(c, t);
    }

    /** The child that grew on the deep side: its tilt picks the rotation. */
    lemma GrownChild(c: Ctx<V>, t: Tree<V>)
      requires c != Top && c.bal == Side(c) && InPlace(c, t)
      requires Growing(c, t)
      ensures CanSingle(Fill(c, t), Side(c)) && Root(t) in store && store[Root(t)].bal == t.bal
      ensures t.bal == Side(c) || (t.bal == Other(Side(c)) && CanDouble(Fill(c, t), Side(c)))
      ensures InPlace(c.up, Fill(c, t))
    {
      assert Opened(t);
      var f := Fill(c, t);
      assert Height(f) == Height(t) + 1;
      GrownRotationOk(f, Side(c));
      assert Plug(c, t) == Plug(c.up, f);
      HoldsPlug(store, c, t);
      HoldsPlug(store, c.up, f);
    }

    // ----- the removal walk -----

    /** The subtree on `side` of `self` just got one shorter. */
    method GotOneShorter(self: Ptr, side: Balance, ghost c: Ctx<V>, ghost t: Tree<V>)
      requires c != Top && self == At(c) && side == Side(c) && InPlace(c, t) && Shrinking(c, t)
      modifies this`store, this`tree, this`singleRotations, this`doubleRotations
      ensures InPlace(Top, Shrink(c, t))
      ensures store.Keys == old(store.Keys)
      decreases c, 0
    {
      LookAround(c, t);
      var balance := store[self].bal;
      assert balance == c.bal != AVLNew;
      if balance == AVLBalanced {
        Tilt(self, Other(side), c, t);
        assert Shrink(c, t) == Plug(c.up, FillAs(c, t, Other(side)));
      } else if balance == side {
        ShrinkTilt(c, t);
        Tilt(self, AVLBalanced, c, t);
        Shorter(self, c.up, FillAs(c, t, AVLBalanced));
        assert Shrink(c, t) == Shrink(c.up, FillAs(c, t, AVLBalanced));
      } else {
        ShrinkTurn(c, t);
        var replacement, done := RotateShrunk(self, Other(side), c, t);
        ghost var turned := ShrunkRotation(Fill(c, t), Other(side));
        if done {
          Settle(c.up, turned.0);
        } else {
          Shorter(replacement, c.up, turned.0);
        }
      }
    }

    /** Rotate `self`, whose light side got shorter; `done` when the depth did not change. */
    method RotateShrunk(self: Ptr, heavySide: Balance, ghost c: Ctx<V>, ghost t: Tree<V>)
      returns (replacement: Ptr, done: bool)
      requires c != Top && self == At(c) && heavySide == Other(Side(c)) == c.bal && InPlace(c, t) && Shrinking(c, t)
      modifies this`store, this`tree, this`singleRotations, this`doubleRotations
      ensures var (u, shorter) := ShrunkRotation(Fill(c, t), heavySide);
              InPlace(c.up, u) && u.Node? && replacement == Root(u) && done == !shorter
      ensures store.Keys == old(store.Keys)
    {
      assert Opened(t);
      ghost var f := Fill(c, t);
      HeavyChild(c, t);
      var heavyChild := if heavySide == AVLLeft then store[self].left else store[self].right;
      assert heavyChild != 0;
      if store[heavyChild].bal == heavySide {
        SingleRotate(self, heavyChild, heavySide, c.up, f);
        return heavyChild, false;
      } else if store[heavyChild].bal == Other(heavySide) {
        var grandchild := if heavySide == AVLRight then store[heavyChild].left else store[heavyChild].right;
        DoubleRotate(self, heavyChild, grandchild, heavySide, c.up, f);
        return grandchild, false;
      } else {
        assert store[heavyChild].bal == AVLBalanced;
        RotateEven(self, heavyChild, heavySide, c.up, f);
        return heavyChild, true;
      }
    }

    /** A single rotation about an even child, whose result is as deep as before: both factors are set again. */
    method RotateEven(self: Ptr, heavyChild: Ptr, heavySide: Balance, ghost c: Ctx<V>, ghost f: Tree<V>)
      requires InPlace(c, f) && CanSingle(f, heavySide) && self == Root(f)
      requires heavyChild == Root(if heavySide == AVLRight then f.right else f.left)
      requires (if heavySide == AVLRight then f.right else f.left).bal == AVLBalanced
      modifies this`store, this`tree, this`singleRotations
      ensures InPlace(c, ShrunkRotation(f, heavySide).0) && store.Keys == old(store.Keys)
    {
      SingleRotate(self, heavyChild, heavySide, c, f);
      Look(c, SingleRotated(f, heavySide));
      Repaired(store, c, f, heavySide);
      store := SetBalance(store, self, heavySide);
      store := SetBalance(store, heavyChild, Other(heavySide));
    }

    /** `self` got shorter: go on at its parent, if any. */
    method Shorter(self: Ptr, ghost c: Ctx<V>, ghost t: Tree<V>)
      requires t.Node? && self == Root(t) && InPlace(c, t) && Shrinking(c, t)
      modifies this`store, this`tree, this`singleRotations, this`doubleRotations
      ensures InPlace(Top, Shrink(c, t))
      ensures store.Keys == old(store.Keys)
      decreases c, 1
    {
      IsHanging(c, t);
      var parent := store[self].parent;
      if parent != 0 {
        if store[parent].right == self {
          GotOneShorter(parent, AVLRight, c, t);
        } else {
          assert store[parent].left == self;
          GotOneShorter(parent, AVLLeft, c, t);
        }
      }
    }

    /** The child on the heavy side: its tilt picks the rotation. */
    lemma HeavyChild(c: Ctx<V>, t: Tree<V>)
      requires c != Top && c.bal == Other(Side(c)) && InPlace(c, t) && Shrinking(c, t)
      ensures var f := Fill(c, t); var heavy := c.bal; var y := if heavy == AVLRight then f.right else f.left;
              && CanSingle(f, heavy) && InPlace(c.up, f)
              && Root(y) in store && Root(y) != 0
              && store[Root(y)] == Cell(Root(y.left), Root(y.right), Root(f), y.bal, y.item.key, y.item.value)
              && (y.bal == heavy || y.bal == AVLBalanced || (y.bal == Other(heavy) && CanDouble(f, heavy)))
    {
      assert Opened(t);
      var f, heavy := Fill(c, t), c.bal;
      ShrunkRotationOk(f, heavy);
      HoldsFill(store, c, t);
      var y := if heavy == AVLRight then f.right else f.left;
      assert Rep(store, y, Root(f));
    }

    // ----- the tree as a whole -----

    /** Exact balance factors and search order. */
    static ghost predicate Ordered(t: Tree<V>) {
      var ordered := Avl(t) && Sorted(Items(t));
      ordered
    }

    /** Links, search order and balance. */
    ghost predicate Sound()
      reads this
    {
      var sound := InPlace(Top, shape) && store.Keys == Ats(shape) && Ordered(shape) && contents == MapOf(Items(shape));
      sound
    }

    /**
      The invariant for callers: `Sound`, and the 32-bit counters agree with the
      number of nodes. It is stated through `Opened` so that only the methods of
      this class, which call `Open`, look inside.
     */
    ghost predicate Valid()
      reads this
    {
      forall t: Tree<V> {:trigger Opened(t)} :: Opened(t) && t == shape ==>
        Sound() && Counted(insertions, deletions, |Items(shape)|)
    }

    lemma Open()
      requires Valid()
      ensures Sound() && Counted(insertions, deletions, |Items(shape)|)
    {
      assert Opened(shape);
    }

    lemma Close()
      requires Sound() && Counted(insertions, deletions, |Items(shape)|)
      ensures Valid()
    {
      assert Opened(shape);
    }

    ghost function Contents(): map<int, V>
      reads this
    {
      contents
    }

    constructor ()
      ensures Valid() && Contents() == map[] && shape == Leaf
      ensures insertions == 0 && deletions == 0 && singleRotations == 0 && doubleRotations == 0
    {
      store, tree, shape, contents := map[], 0, Leaf, map[];
      insertions, deletions, singleRotations, doubleRotations := 0, 0, 0, 0;
      new;
      Close();
    }

    /** Walk down to the leaf position of `key`. */
    method FindLeaf(key: int) returns (previous: Ptr, ghost c: Ctx<V>)
      requires Sound() && key !in Contents() && tree != 0
      ensures c == Descend(Top, shape, key) && c != Top && InPlace(c, Leaf) && previous == At(c)
      ensures c.InRight? <==> c.item.key < key
    {
      assert Opened(shape);
      var currentNode := tree;
      ghost var t := shape;
      c, previous := Top, 0;
      MapOfKeys(Items(shape));
      while currentNode != 0
        invariant Plug(c, t) == shape && Descend(c, t, key) == Descend(Top, shape, key)
        invariant Holds(store, c, t) && currentNode == Root(t) && previous == At(c)
        invariant t.Leaf? ==> c != Top
        invariant c != Top ==> (c.InRight? <==> c.item.key < key)
        invariant Sorted(Items(t)) && !HasKey(Items(t), key)
        decreases t
      {
        previous := currentNode;
        SortedSplit(Items(t.left), t.item, Items(t.right), key);
        ghost var up := c;
        if store[currentNode].key < key {
          c := InRight(t.left, t.item, t.bal, c);
          currentNode := store[currentNode].right;
          HoldsFill(store, c, t.right);
          t := t.right;
        } else {
          assert store[currentNode].key > key;
          c := InLeft(t.item, t.bal, t.right, c);
          currentNode := store[currentNode].left;
          HoldsFill(store, c, t.left);
          t := t.left;
        }
      }
      RootOfPlug(c, t);
    }

    /** `addr` is the node the allocator handed out; NULL when it had none. */
    method Insert(addr: Ptr, key: int, value: V) returns (ok: bool)
      requires Valid() && key !in Contents() && addr !in store
      modifies this
      ensures Valid() && ok == (addr != 0)
      ensures shape == if ok then Inserted(old(shape), Item(addr, key, value)) else old(shape)
      ensures Contents() == if ok then old(Contents())[key := value] else old(Contents())
      ensures insertions == if ok then (old(insertions) + 1) % WORD else old(insertions)
      ensures deletions == old(deletions)
    {
      if addr == 0 {
        return false;
      }
      InsertDone(Item(addr, key, value));
      InsertNode(addr, key, value);
      shape, contents := Inserted(shape, Item(addr, key, value)), contents[key := value];
      Close();
      return true;
    }

    method InsertNode(addr: Ptr, key: int, value: V)
      requires Valid() && key !in Contents() && addr !in store && addr != 0
      modifies this`store, this`tree, this`insertions, this`singleRotations, this`doubleRotations
      ensures InPlace(Top, Inserted(shape, Item(addr, key, value))) && store.Keys == old(store.Keys) + {addr}
      ensures insertions == (old(insertions) + 1) % WORD
    {
      Open();
      Look(Top, shape);
      insertions := (insertions + 1) % WORD;
      if tree == 0 {
        store := store[addr := Cell(0, 0, 0, AVLBalanced, key, value)];
        tree := addr;
        Hung(map[], store, Top, Item(addr, key, value));
      } else {
        var previous, c := FindLeaf(key);
        HangNode(addr, key, value, previous, c);
      }
    }

    method HangNode(addr: Ptr, key: int, value: V, previous: Ptr, ghost c: Ctx<V>)
      requires Sound() && key !in Contents() && addr !in store && addr != 0
      requires c == Descend(Top, shape, key) && c != Top && InPlace(c, Leaf) && previous == At(c)
      requires c.InRight? <==> c.item.key < key
      modifies this`store, this`tree, this`singleRotations, this`doubleRotations
      ensures InPlace(Top, Inserted(shape, Item(addr, key, value)))
      ensures store.Keys == old(store.Keys) + {addr}
    {
      ghost var x := Item(addr, key, value);
      Look(c, Leaf);
      InsertReady(c, x);
      store := store[addr := Cell(0, 0, previous, AVLBalanced, key, value)];
      if store[previous].key < key {
        assert store[previous].right == 0;
        store := SetRight(store, previous, addr);
        Hung(old(store), store, c, x);
        RightAdded(previous, c, Node(Leaf, x, AVLBalanced, Leaf));
      } else {
        assert store[previous].left == 0;
        store := SetLeft(store, previous, addr);
        Hung(old(store), store, c, x);
        LeftAdded(previous, c, Node(Leaf, x, AVLBalanced, Leaf));
      }
    }

    /** Before the new node is hung: the walk may start at its parent. */
    lemma InsertReady(c: Ctx<V>, x: Item<V>)
      requires Sound() && x.key !in Contents() && c == Descend(Top, shape, x.key) && c != Top && InPlace(c, Leaf)
      requires x.at !in store && x.at != 0
      ensures x.at !in CtxAts(c) && At(c) in store && At(c) != x.at
      ensures store[At(c)].key == c.item.key && (if c.InRight? then store[At(c)].right else store[At(c)].left) == 0
      ensures Growing(c, Node(Leaf, x, AVLBalanced, Leaf))
      ensures RootOf(c, x.at) == tree
    {
      assert Opened(Leaf);
      assert Opened(shape);
      MapOfKeys(Items(shape));
      DescendOk(Top, shape, x.key);
      PlugAvl(c, Leaf);
      HoldsPlug(store, c, Leaf);
    }

    /** What the insertion leaves: one more key, in order. */
    lemma InsertDone(x: Item<V>)
      requires Valid() && x.key !in Contents()
      ensures var u := Inserted(shape, x);
              && Ordered(u) && MapOf(Items(u)) == contents[x.key := x.value] && Ats(u) == store.Keys + {x.at}
              && Counted((insertions + 1) % WORD, deletions, |Items(u)|)
    {
      Open();
      InsertedAts(shape, x);
      CountInsertion(insertions, deletions, |Items(shape)|);
    }

    static lemma InsertedAts(t: Tree<V>, x: Item<V>)
      requires Ordered(t) && x.key !in MapOf(Items(t))
      ensures var u := Inserted(t, x);
              && Ordered(u) && MapOf(Items(u)) == MapOf(Items(t))[x.key := x.value]
              && Ats(u) == Ats(t) + {x.at} && |Items(u)| == |Items(t)| + 1
    {
      var a, b := InsertedOk(t, x);
      AtSetSplit(a, x, b);
      AtsOfItems(t);
      AtsOfItems(Inserted(t, x));
    }

    // ----- removal -----

    /** `AVLNodeLogic::remove` followed by the release of the node. */
    method RemoveNode(self: Ptr, ghost c: Ctx<V>, ghost t: Tree<V>)
      requires InPlace(c, t) && t.Node? && self == Root(t) && Fitting(c, t)
      modifies this`store, this`tree, this`deletions, this`singleRotations, this`doubleRotations
      ensures InPlace(Top, RemovedAt(c, t))
      ensures store.Keys == old(store.Keys) - {self} && deletions == (old(deletions) + 1) % WORD
    {
      LookAt(c, t);
      ThinNode(c, t);
      RemoveReady(c, t);
      RemovedAts(c, t);
      deletions := (deletions + 1) % WORD;
      var left, right := store[self].left, store[self].right;
      if left == 0 {
        Unlink(self, right, c, t, t.right);
      } else if right == 0 {
        Unlink(self, left, c, t, t.left);
      } else {
        UnlinkInner(self, c, t);
      }
      Release(self, RemovedAt(c, t));
    }

    /** The node is freed. */
    method Release(self: Ptr, ghost t: Tree<V>)
      requires InPlace(Top, t) && self !in Ats(t)
      modifies this`store
      ensures InPlace(Top, t) && store.Keys == old(store.Keys) - {self}
    {
      Look(Top, t);
      HoldsKept(store, store - {self}, Top, t, self);
      store := store - {self};
    }

    /** What `remove` asserts of a node with a missing side: the other child is a leaf or missing too. */
    static lemma ThinNode(c: Ctx<V>, t: Tree<V>)
      requires t.Node? && Fitting(c, t)
      ensures t.bal in {AVLRight, AVLLeft, AVLBalanced}
      ensures t.left.Leaf? ==> (t.right.Leaf? && t.bal == AVLBalanced) || (t.bal == AVLRight && IsLeafNode(t.right))
      ensures t.left.Node? && t.right.Leaf? ==> t.bal == AVLLeft && IsLeafNode(t.left)
      ensures t.left.Leaf? ==> Shrinking(c, t.right)
      ensures t.right.Leaf? ==> Shrinking(c, t.left)
    {
      assert Avl(t.left) && Avl(t.right);
      assert t.left.Leaf? && t.right.Node? ==> Height(t.right) == 1;
      assert t.right.Leaf? && t.left.Node? ==> Height(t.left) == 1;
    }

    lemma RemoveReady(c: Ctx<V>, t: Tree<V>)
      requires InPlace(c, t) && t.Node?
      ensures Root(t) !in Ats(t.left) + Ats(t.right) + CtxAts(c)
    {
      assert Opened(t);
    }

    /** Removal drops exactly the node's address. */
    lemma RemovedAts(c: Ctx<V>, t: Tree<V>)
      requires t.Node? && Fitting(c, t)
      ensures Ats(RemovedAt(c, t)) == Ats(t.left) + Ats(t.right) + CtxAts(c)
    {
      PlugAvl(c, t);
      RemovedAtOk(c, t);
      PlugItems(c, Leaf);
      HoldsPlug(store, c, Leaf);
      AtsOfItems(Plug(c, Leaf));
      AtsOfItems(t.left);
      AtsOfItems(t.right);
      AtsOfItems(RemovedAt(c, t));
      SpliceAts(Before(c), Items(t.left), Items(t.right), After(c), t.item);
    }

    static lemma SpliceAts(a: seq<Item<V>>, l: seq<Item<V>>, r: seq<Item<V>>, b: seq<Item<V>>, x: Item<V>)
      ensures AtSet(a + (l + r) + b) == AtSet(a + [] + b) + AtSet(l) + AtSet(r)
    {
      AtSetSplit(a, x, b);
      AtSetSplit(l, x, r);
      AtSetSplit(a, x, l + r);
      AtSetSplit(a + (l + r), x, b);
      assert a + [] + b == a + b;
    }

    /** A child that is a leaf of the tree. */
    static ghost predicate IsLeafNode(t: Tree<V>) {
      t.Node? && t.bal == AVLBalanced && t.left.Leaf? && t.right.Leaf?
    }

    /** Put the only child, if any, in the place of `self`. */
    method Unlink(self: Ptr, child: Ptr, ghost c: Ctx<V>, ghost t: Tree<V>, ghost u: Tree<V>)
      requires InPlace(c, t) && t.Node? && self == Root(t) && child == Root(u)
      requires (t.left.Leaf? && u == t.right) || (t.right.Leaf? && u == t.left)
      requires Shrinking(c, u)
      modifies this`store, this`tree, this`singleRotations, this`doubleRotations
      ensures InPlace(Top, Shrink(c, u)) && store.Keys == old(store.Keys)
    {
      IsHanging(c, t);
      var parent := store[self].parent;
      var side := if parent != 0 && store[parent].left == self then AVLLeft else AVLRight;
      Splice(self, child, c, t, u);
      if parent != 0 {
        GotOneShorter(parent, side, c, u);
      }
    }

    method Splice(self: Ptr, child: Ptr, ghost c: Ctx<V>, ghost t: Tree<V>, ghost u: Tree<V>)
      requires InPlace(c, t) && t.Node? && self == Root(t) && child == Root(u)
      requires (t.left.Leaf? && u == t.right) || (t.right.Leaf? && u == t.left)
      modifies this`store, this`tree
      ensures InPlace(c, u) && store.Keys == old(store.Keys)
    {
      Look(c, t);
      IsHanging(c, t);
      AtIn(c);
      RootHeld(store, u, self);
      var s, root := Promote(store, tree, self, child, c);
      if child != 0 {
        s := SetParent(s, child, store[self].parent);
      }
      Spliced(store, s, c, t, u);
      store, tree := s, root;
    }

    /** Two children: the symmetric successor takes the place of `self`. */
    method UnlinkInner(self: Ptr, ghost c: Ctx<V>, ghost t: Tree<V>)
      requires InPlace(c, t) && t.Node? && t.left.Node? && t.right.Node? && self == Root(t)
      requires Fitting(c, t)
      modifies this`store, this`tree, this`singleRotations, this`doubleRotations
      ensures InPlace(Top, RemovedAt(c, t)) && store.Keys == old(store.Keys)
    {
      assert Opened(t);
      ghost var f := InRight(t.left, t.item, t.bal, c);
      var successor, e, y := FindSuccessor(self, c, t);
      SuccessorAvl(c, t);
      LeftmostOk(f, Top, t.right);
      var parent := store[successor].parent;
      if store[parent].left == successor {
        SuccessorBelow(c, t, e, y);
        PromoteDeepSuccessor(self, successor, c, t, e, y);
        GotOneShorter(parent, AVLLeft, Successor(c, t), y.right);
      } else {
        SuccessorChild(c, t, e, y);
        assert parent == self;
        PromoteChildSuccessor(self, successor, c, t);
        GotOneShorter(successor, AVLRight, Successor(c, t), y.right);
      }
    }

    /** Follow all left links in the right subtree. */
    method FindSuccessor(self: Ptr, ghost c: Ctx<V>, ghost t: Tree<V>)
      returns (candidate: Ptr, ghost e: Ctx<V>, ghost y: Tree<V>)
      requires InPlace(c, t) && t.Node? && t.right.Node? && self == Root(t)
      ensures (e, y) == Leftmost(InRight(t.left, t.item, t.bal, c), t.right)
      ensures InPlace(e, y) && y.Node? && candidate == Root(y) && Hanging(store, tree, candidate, e)
    {
      LookAt(c, t);
      StepDown(c, t);
      candidate := store[self].right;
      e, y := InRight(t.left, t.item, t.bal, c), t.right;
      LookAt(e, y);
      while store[candidate].left != 0
        invariant Leftmost(e, y) == Leftmost(InRight(t.left, t.item, t.bal, c), t.right)
        invariant InPlace(e, y) && y.Node? && candidate == Root(y) && candidate in store
        invariant store[candidate].left == Root(y.left) && (Root(y.left) == 0 <==> y.left.Leaf?)
        decreases y
      {
        candidate := store[candidate].left;
        StepDown(e, y);
        e, y := InLeft(y.item, y.bal, y.right, e), y.left;
        LookAt(e, y);
      }
      IsHanging(e, y);
    }

    /** A successor that hangs deeper than the right child. */
    lemma SuccessorBelow(c: Ctx<V>, t: Tree<V>, e: Ctx<V>, y: Tree<V>)
      requires t.Node? && t.right.Node? && (e, y) == Leftmost(InRight(t.left, t.item, t.bal, c), t.right)
      requires e.InLeft?
      ensures t.right.left.Node? && Successor(c, t).InLeft? && At(Successor(c, t)) == At(e)
    {
      LeftmostOk(InRight(t.left, t.item, t.bal, c), Top, t.right);
      LeftmostTop(InRight(t.left, y.item, t.bal, c), InRight(t.left, t.item, t.bal, c), t.right);
    }

    /** A successor that is the right child itself. */
    lemma SuccessorChild(c: Ctx<V>, t: Tree<V>, e: Ctx<V>, y: Tree<V>)
      requires t.Node? && t.right.Node? && (e, y) == Leftmost(InRight(t.left, t.item, t.bal, c), t.right)
      requires !e.InLeft?
      ensures t.right.left.Leaf? && y == t.right && e == InRight(t.left, t.item, t.bal, c)
      ensures Successor(c, t) == InRight(t.left, y.item, t.bal, c)
    {
      if t.right.left.Node? {
        LeftmostTop(e, InRight(t.left, t.item, t.bal, c), t.right);
      }
    }

    /** Once `y` sits in the place of `t`, the hole is where `y` used to hang. */
    lemma SuccessorInPlace(c: Ctx<V>, t: Tree<V>, y: Tree<V>)
      requires t.Node? && t.right.Node? && y == Leftmost(Top, t.right).1 && y.Node?
      requires InPlace(c, Node(t.left, y.item, t.bal, DropMin(t.right)))
      ensures InPlace(Successor(c, t), y.right)
    {
      assert Opened(Node(t.left, y.item, t.bal, DropMin(t.right)));
      var f := InRight(t.left, y.item, t.bal, c);
      LeftmostOk(f, Top, t.right);
      LeftmostDrop(f, t.right);
      Settle(f, DropMin(t.right));
      Settle(c, Fill(f, DropMin(t.right)));
      Settle(Successor(c, t), y.right);
    }

    /** The successor is the right child: promote it directly. */
    method PromoteChildSuccessor(self: Ptr, successor: Ptr, ghost c: Ctx<V>, ghost t: Tree<V>)
      requires InPlace(c, t) && t.Node? && t.right.Node? && t.right.left.Leaf?
      requires self == Root(t) && successor == Root(t.right)
      modifies this`store, this`tree
      ensures InPlace(Successor(c, t), t.right.right) && store.Keys == old(store.Keys)
    {
      assert Opened(t);
      IsHanging(c, t);
      ghost var y := t.right;
      ChildSuccessorNodes(c, t);
      var s, root := Promote(store, tree, self, successor, c);
      s := AdoptLeft(s, self, successor);
      Adopted(store, s, c, t.left, t.item, t.bal, y.item, y.bal, y.right);
      store, tree := s, root;
      SuccessorInPlace(c, t, y);
    }

    lemma ChildSuccessorNodes(c: Ctx<V>, t: Tree<V>)
      requires InPlace(c, t) && t.Node? && t.right.Node? && t.right.left.Leaf?
      ensures var x, y := Root(t), t.right;
              && x in store && store[x] == Cell(Root(t.left), Root(y), At(c), t.bal, t.item.key, t.item.value)
              && Root(y) in store && store[Root(y)] == Cell(0, Root(y.right), x, y.bal, y.item.key, y.item.value)
              && x != Root(y) && At(c) != x && At(c) != Root(y)
              && (t.left.Node? <==> Root(t.left) != 0)
              && (t.left.Node? ==> Root(t.left) in store && Root(t.left) !in {x, Root(y), At(c)})
    {
      assert Opened(t);
      var y := t.right;
      AtIn(c);
      ApartSingleRight(c, t.item, t.bal, y.item, y.bal, t.left, y.left, y.right);
      RootHeld(store, t.left, Root(t));
      assert Rep(store, y, Root(t));
    }

    /** The successor hangs deeper: its right child takes its place, then it takes the place of `self`. */
    method PromoteDeepSuccessor(self: Ptr, successor: Ptr, ghost c: Ctx<V>, ghost t: Tree<V>, ghost e: Ctx<V>,
                                ghost y: Tree<V>)
      requires InPlace(c, t) && t.Node? && t.left.Node? && t.right.Node? && t.right.left.Node? && self == Root(t)
      requires (e, y) == Leftmost(InRight(t.left, t.item, t.bal, c), t.right)
      requires y == Leftmost(Top, t.right).1 && e.InLeft?
      requires InPlace(e, y) && successor == Root(y) && y.Node? && y.left.Leaf? && Hanging(store, tree, successor, e)
      modifies this`store, this`tree
      ensures InPlace(Successor(c, t), y.right) && store.Keys == old(store.Keys)
    {
      assert Opened(t);
      assert Opened(y);
      AtIn(e);
      RootHeld(store, y.right, successor);
      var parent, right := store[successor].parent, store[successor].right;
      var s := SetLeft(store, parent, right);
      if right != 0 {
        s := SetParent(s, right, parent);
      }
      Spliced(store, s, e, y, y.right);
      store := s;
      SplicedOut(c, t, e, y);
      TakeOver(self, successor, c, t.left, t.item, t.bal, DropMin(t.right), y.item);
      SuccessorInPlace(c, t, y);
    }

    /** With the successor unhooked, `self` still holds its place over what is left of the right subtree. */
    lemma SplicedOut(c: Ctx<V>, t: Tree<V>, e: Ctx<V>, y: Tree<V>)
      requires t.Node? && t.right.Node? && t.right.left.Node?
      requires (e, y) == Leftmost(InRight(t.left, t.item, t.bal, c), t.right) && y.Node? && Apart(e, y)
      requires InPlace(e, y.right)
      ensures InPlace(c, Node(t.left, t.item, t.bal, DropMin(t.right)))
      ensures y.item.at != 0 && y.item.at !in Ats(t.left) + Ats(DropMin(t.right)) + CtxAts(c) + {t.item.at}
    {
      assert Opened(y.right);
      var f := InRight(t.left, t.item, t.bal, c);
      LeftmostDrop(f, t.right);
      Settle(e, y.right);
      Settle(f, DropMin(t.right));
      Settle(c, Fill(f, DropMin(t.right)));
      HoldsPlug(store, e, y.right);
      HoldsPlug(store, c, Fill(f, DropMin(t.right)));
    }

    /** `successor` takes over the place, children and balance factor of `self`. */
    method TakeOver(self: Ptr, successor: Ptr, ghost c: Ctx<V>, ghost l: Tree<V>, ghost x: Item<V>, ghost b: Balance,
                    ghost r: Tree<V>, ghost y: Item<V>)
      requires InPlace(c, Node(l, x, b, r)) && l.Node? && r.Node? && self == x.at && successor == y.at
      requires successor in store && store[successor].key == y.key && store[successor].value == y.value
      requires successor != 0 && successor !in Ats(l) + Ats(r) + CtxAts(c) + {x.at}
      modifies this`store, this`tree
      ensures InPlace(c, Node(l, y, b, r)) && store.Keys == old(store.Keys)
    {
      assert Opened(Node(l, x, b, r));
      IsHanging(c, Node(l, x, b, r));
      TakeOverNodes(c, l, x, b, r);
      var s := AdoptChildren(store, self, successor);
      var root;
      s, root := Promote(s, tree, self, successor, c);
      s := SetParent(s, successor, s[self].parent);
      Replaced(store, s, c, l, x, b, r, y);
      store, tree := s, root;
    }

    lemma TakeOverNodes(c: Ctx<V>, l: Tree<V>, x: Item<V>, b: Balance, r: Tree<V>)
      requires InPlace(c, Node(l, x, b, r)) && l.Node? && r.Node?
      ensures {x.at, Root(l), Root(r)} <= store.Keys
      ensures store[x.at] == Cell(Root(l), Root(r), At(c), b, x.key, x.value)
      ensures Root(l) != Root(r) && x.at != Root(l) && x.at != Root(r) && At(c) !in {x.at, Root(l), Root(r)}
      ensures Root(l) in Ats(l) && Root(r) in Ats(r) && (c != Top ==> At(c) in CtxAts(c))
    {
      Look(c, Node(l, x, b, r));
      NodeApart(store, c, l, x, b, r);
    }

    static method AdoptChildren(s: Store<V>, self: Ptr, successor: Ptr) returns (s': Store<V>)
      requires self in s && successor in s && s[self].left in s && s[self].right in s
      requires self != successor && s[self].left != s[self].right
      requires successor !in {s[self].left, s[self].right} && self !in {s[self].left, s[self].right}
      ensures s'.Keys == s.Keys && Keeps(s, s', {successor, s[self].left, s[self].right})
      ensures s'[successor] == s[successor].(left := s[self].left, right := s[self].right, bal := s[self].bal)
      ensures Reparented(s, s', s[self].left, successor) && Reparented(s, s', s[self].right, successor)
    {
      s' := SetRight(s, successor, s[self].right);
      s' := SetLeft(s', successor, s'[self].left);
      s' := SetBalance(s', successor, s'[self].bal);
      s' := SetParent(s', s'[successor].right, successor);
      s' := SetParent(s', s'[successor].left, successor);
    }

    static method AdoptLeft(s: Store<V>, self: Ptr, successor: Ptr) returns (s': Store<V>)
      requires self in s && successor in s && self != successor
      requires s[self].left != 0 ==> s[self].left in s && s[self].left !in {self, successor}
      ensures s'.Keys == s.Keys && Keeps(s, s', {successor, s[self].left})
      ensures s'[successor] == s[successor].(left := s[self].left, parent := s[self].parent, bal := s[self].bal)
      ensures s[self].left != 0 ==> Reparented(s, s', s[self].left, successor)
    {
      s' := SetParent(s, successor, s[self].parent);
      s' := SetLeft(s', successor, s'[self].left);
      if s'[self].left != 0 {
        s' := SetParent(s', s'[self].left, successor);
      }
      s' := SetBalance(s', successor, s'[self].bal);
    }

    // ----- the user-facing operations of AVLTree -----

    /** `remove(keyClass)`: removes and returns the element with this key, if there is one. */
    method Remove(key: int) returns (r: Option<V>)
      requires Valid()
      modifies this
      ensures Valid()
      ensures r == if key in old(Contents()) then Some(old(Contents())[key]) else None
      ensures shape == if key in old(Contents()) then Removed(old(shape), key) else old(shape)
      ensures Contents() == old(Contents()) - {key}
      ensures deletions == if r.Some? then (old(deletions) + 1) % WORD else old(deletions)
      ensures insertions == old(insertions)
    {
      var candidate := FloorOf(key);
      if candidate == 0 || store[candidate].key != key {
        assert Contents() - {key} == Contents();
        return None;
      }
      r := Some(store[candidate].value);
      RemoveFound(candidate, key);
    }

    /** The first node at or below `key`: the one with this key, if there is one. */
    method FloorOf(key: int) returns (candidate: Ptr)
      requires Valid()
      ensures candidate != 0 ==> candidate in store && ItemAt(store, candidate) in Items(shape)
      ensures key in Contents() <==> candidate != 0 && store[candidate].key == key
      ensures key in Contents() ==> store[candidate].value == Contents()[key]
    {
      Open();
      Look(Top, shape);
      candidate := 0;
      if tree != 0 {
        candidate := FindFirstLessThanOrEqualTo(store, tree, Straight(key), shape, 0);
        FindFirstLessThanOrEqualToOk(store, Straight(key), key, shape, 0);
      }
      FloorLookup(candidate, key);
    }

    method RemoveFound(candidate: Ptr, key: int)
      requires Valid() && key in Contents() && candidate in store && store[candidate].key == key
      requires ItemAt(store, candidate) in Items(shape)
      modifies this
      ensures Valid() && shape == Removed(old(shape), key) && Contents() == old(Contents()) - {key}
      ensures deletions == (old(deletions) + 1) % WORD && insertions == old(insertions)
    {
      RemoveDone(key);
      ghost var c, u := RemoveFocus(key, candidate);
      RemoveNode(candidate, c, u);
      shape, contents := Removed(shape, key), contents - {key};
      Close();
    }

    /** The floor search decides whether `key` is present, and finds its element. */
    lemma FloorLookup(r: Ptr, key: int)
      requires Sound() && Floor(store, Items(shape), key, r)
      ensures r != 0 ==> r in store
      ensures key in Contents() <==> r != 0 && store[r].key == key
      ensures key in Contents() ==> store[r].value == Contents()[key]
    {
      assert Opened(shape);
      var xs := Items(shape);
      MapOfKeys(xs);
      if r != 0 {
        var i :| 0 <= i < |xs| && xs[i] == ItemAt(store, r);
        MapOfAt(xs, i);
      }
    }

    /** The node found is the one the removal focuses on. */
    lemma RemoveFocus(key: int, r: Ptr) returns (c: Ctx<V>, u: Tree<V>)
      requires Valid() && r in store && store[r].key == key && ItemAt(store, r) in Items(shape)
      ensures u.Node? && Root(u) == r && InPlace(c, u) && Fitting(c, u) && Removed(shape, key) == RemovedAt(c, u)
      ensures Ats(Removed(shape, key)) == store.Keys - {r}
    {
      Open();
      var xs := Items(shape);
      var i :| 0 <= i < |xs| && xs[i] == ItemAt(store, r);
      var seek := Seek(Top, shape, key);
      c, u := seek.0, seek.1;
      SeekOk(Top, shape, key);
      Settle(c, u);
      PlugAvl(c, u);
      PlugItems(c, u);
      var j := |Before(c)| + |Items(u.left)|;
      assert xs[j] == u.item;
      assert i == j;
      RemovedAts(c, u);
      Look(c, u);
      HoldsPlug(store, c, u);
    }

    /** What the removal leaves: the other keys, in order. */
    lemma RemoveDone(key: int)
      requires Valid() && key in Contents()
      ensures var u := Removed(shape, key);
              && Ordered(u) && MapOf(Items(u)) == contents - {key}
              && Counted(insertions, (deletions + 1) % WORD, |Items(u)|)
    {
      Open();
      var a, x, b := RemovedOk(shape, key);
      CountDeletion(insertions, deletions, |Items(shape)|);
    }

    /** The allocator: any address that is not in use. */
    method Allocate() returns (addr: Ptr)
      ensures addr != 0 && addr !in store
    {
      ghost var p := FreshAddress(store.Keys);
      assert p != 0 && p !in store;
      addr :| addr != 0 && addr !in store;
    }

    /** Insertion with an address from the allocator. */
    method InsertNew(key: int, value: V)
      requires Valid() && key !in Contents()
      modifies this
      ensures Valid() && Contents() == old(Contents())[key := value]
    {
      var addr := Allocate();
      var ok := Insert(addr, key, value);
    }

    /** What a search for the greatest key up to `k` must deliver. */
    static ghost predicate IsFloor(m: map<int, V>, k: int, r: Option<(int, V)>) {
      match r
      case None => forall j :: j in m ==> k < j
      case Some((key, value)) =>
        && key in m && m[key] == value && key <= k
        && forall j :: j in m && j <= k ==> j <= key
    }

    /** What a search for the least key from `k` on must deliver. */
    static ghost predicate IsCeiling(m: map<int, V>, k: int, r: Option<(int, V)>) {
      match r
      case None => forall j :: j in m ==> j < k
      case Some((key, value)) =>
        && key in m && m[key] == value && k <= key
        && forall j :: j in m && k <= j ==> key <= j
    }

    function Element(p: Ptr): Option<(int, V)>
      reads this
      requires p == 0 || p in store
    {
      if p == 0 then None else Some((store[p].key, store[p].value))
    }

    lemma FloorElement(r: Ptr, k: int)
      requires Sound() && Floor(store, Items(shape), k, r)
      ensures (r == 0 || r in store) && IsFloor(Contents(), k, Element(r))
    {
      assert Opened(shape);
      var xs := Items(shape);
      MapOfKeys(xs);
      if r != 0 {
        var i :| 0 <= i < |xs| && xs[i] == ItemAt(store, r);
        MapOfAt(xs, i);
      }
    }

    lemma CeilingElement(r: Ptr, k: int)
      requires Sound() && Ceiling(store, Items(shape), k, r)
      ensures (r == 0 || r in store) && IsCeiling(Contents(), k, Element(r))
    {
      assert Opened(shape);
      var xs := Items(shape);
      MapOfKeys(xs);
      if r != 0 {
        var i :| 0 <= i < |xs| && xs[i] == ItemAt(store, r);
        MapOfAt(xs, i);
      }
    }

    /** On these keys `sees` compares as the integers do with `k`. */
    static ghost predicate SeenAs(m: map<int, V>, sees: Sight, k: int) {
      forall j :: j in m ==> (sees(j) < 0 <==> j < k) && (sees(j) == 0 <==> j == k)
    }

    /** On these keys `sees` runs against the integers. */
    static ghost predicate SeenBackwards(m: map<int, V>, sees: Sight) {
      && (forall j :: j in m ==> sees(j) != 0)
      && (forall i, j :: i in m && j in m && i < j && sees(j) > 0 ==> sees(i) > 0)
    }

    lemma SeenItems(sees: Sight, k: int)
      requires Sound()
      ensures SeenAs(Contents(), sees, k) ==> Agrees(sees, Items(shape), k)
      ensures SeenBackwards(Contents(), sees) ==> Backwards(sees, Items(shape))
    {
      assert Opened(shape);
      var xs := Items(shape);
      forall i | 0 <= i < |xs|
        ensures xs[i].key in Contents()
      {
        MapOfAt(xs, i);
      }
    }

    /** A node of the tree is an entry of the map. */
    lemma EntryElement(r: Ptr)
      requires Sound() && (r != 0 ==> r in store && ItemAt(store, r) in Items(shape))
      ensures r != 0 ==> store[r].key in Contents() && Contents()[store[r].key] == store[r].value
    {
      assert Opened(shape);
      var xs := Items(shape);
      if r != 0 {
        var i :| 0 <= i < |xs| && xs[i] == ItemAt(store, r);
        MapOfAt(xs, i);
      }
    }

    lemma RootEntry()
      requires Valid()
      ensures shape.Node? <==> Contents() != map[]
      ensures shape.Node? ==> shape.item.key in Contents()
    {
      Open();
      var xs := Items(shape);
      if shape.Node? {
        assert xs[|Items(shape.left)|] == shape.item;
        MapOfAt(xs, |Items(shape.left)|);
      }
    }

    /** The search for the floor, with whatever comparison the keys bring. */
    method FirstLessThanOrEqualToBy(sees: Sight) returns (r: Option<(int, V)>)
      requires Valid()
      ensures r.Some? ==> r.value.0 in Contents() && Contents()[r.value.0] == r.value.1 && sees(r.value.0) <= 0
      ensures forall k :: SeenAs(Contents(), sees, k) ==> IsFloor(Contents(), k, r)
    {
      Open();
      Look(Top, shape);
      var p := 0;
      if tree != 0 {
        p := FindFirstLessThanOrEqualTo(store, tree, sees, shape, 0);
        AtOrBelowSeen(store, sees, shape, 0);
      }
      EntryElement(p);
      r := Element(p);
      forall k | SeenAs(Contents(), sees, k)
        ensures IsFloor(Contents(), k, r)
      {
        SeenItems(sees, k);
        if tree != 0 {
          FindFirstLessThanOrEqualToOk(store, sees, k, shape, 0);
        }
        FloorElement(p, k);
      }
    }

    /** The search for the ceiling; if the comparison runs backwards, the root decides what is found. */
    method FirstGreaterThanOrEqualToBy(sees: Sight) returns (r: Option<(int, V)>)
      requires Valid()
      ensures r.Some? ==> r.value.0 in Contents() && Contents()[r.value.0] == r.value.1 && sees(r.value.0) >= 0
      ensures forall k :: SeenAs(Contents(), sees, k) ==> IsCeiling(Contents(), k, r)
      ensures SeenBackwards(Contents(), sees) ==> (r.Some? <==> shape.Node? && sees(shape.item.key) > 0)
    {
      Open();
      Look(Top, shape);
      var p := 0;
      if tree != 0 {
        p := FindFirstGreaterThanOrEqualTo(store, tree, sees, shape, 0);
        AtOrAboveSeen(store, sees, shape, 0);
      }
      EntryElement(p);
      r := Element(p);
      SeenItems(sees, 0);
      if tree != 0 && Backwards(sees, Items(shape)) {
        BackwardsRoot(store, sees, shape, 0);
      }
      forall k | SeenAs(Contents(), sees, k)
        ensures IsCeiling(Contents(), k, r)
      {
        SeenItems(sees, k);
        if tree != 0 {
          FindFirstGreaterThanOrEqualToOk(store, sees, k, shape, 0);
        }
        CeilingElement(p, k);
      }
    }

    method FirstGreaterThanBy(sees: Sight) returns (r: Option<(int, V)>)
      requires Valid()
      ensures r.Some? ==> r.value.0 in Contents() && Contents()[r.value.0] == r.value.1 && sees(r.value.0) > 0
      ensures forall k :: SeenAs(Contents(), sees, k) ==> IsCeiling(Contents(), k + 1, r)
      ensures SeenBackwards(Contents(), sees) ==> (r.Some? <==> shape.Node? && sees(shape.item.key) > 0)
    {
      Open();
      Look(Top, shape);
      var p := 0;
      if tree != 0 {
        p := FindFirstGreaterThan(store, tree, sees, shape, 0);
        AboveSeen(store, sees, shape, 0);
      }
      EntryElement(p);
      r := Element(p);
      SeenItems(sees, 0);
      if tree != 0 && Backwards(sees, Items(shape)) {
        BackwardsRoot(store, sees, shape, 0);
      }
      forall k | SeenAs(Contents(), sees, k)
        ensures IsCeiling(Contents(), k + 1, r)
      {
        SeenItems(sees, k);
        if tree != 0 {
          FindFirstGreaterThanOk(store, sees, k, shape, 0);
        }
        CeilingElement(p, k + 1);
      }
    }

    method FirstLessThan(key: int) returns (r: Option<(int, V)>)
      requires Valid()
      ensures IsFloor(Contents(), key - 1, r)
    {
      Open();
      Look(Top, shape);
      var p := 0;
      if tree != 0 {
        p := FindFirstLessThan(store, tree, Straight(key), shape, 0);
        FindFirstLessThanOk(store, Straight(key), key, shape, 0);
      }
      FloorElement(p, key - 1);
      r := Element(p);
    }

    method FirstLessThanOrEqualTo(key: int) returns (r: Option<(int, V)>)
      requires Valid()
      ensures IsFloor(Contents(), key, r)
    {
      r := FirstLessThanOrEqualToBy(Straight(key));
      assert SeenAs(Contents(), Straight(key), key);
    }

    method FirstGreaterThan(key: int) returns (r: Option<(int, V)>)
      requires Valid()
      ensures IsCeiling(Contents(), key + 1, r)
    {
      r := FirstGreaterThanBy(Straight(key));
      assert SeenAs(Contents(), Straight(key), key);
    }

    method FirstGreaterThanOrEqualTo(key: int) returns (r: Option<(int, V)>)
      requires Valid()
      ensures IsCeiling(Contents(), key, r)
    {
      r := FirstGreaterThanOrEqualToBy(Straight(key));
      assert SeenAs(Contents(), Straight(key), key);
    }

    method Lookup(key: int) returns (r: Option<V>)
      requires Valid()
      ensures r == if key in Contents() then Some(Contents()[key]) else None
    {
      var e := FirstLessThanOrEqualTo(key);
      r := if e.Some? && e.value.0 == key then Some(e.value.1) else None;
    }

    /** Descend the left links from the root. */
    method FindMin() returns (r: Option<(int, V)>)
      requires Valid()
      ensures r.None? <==> Contents() == map[]
      ensures r.Some? ==> r.value.0 in Contents() && Contents()[r.value.0] == r.value.1
      ensures r.Some? ==> forall k :: k in Contents() ==> r.value.0 <= k
    {
      Open();
      Look(Top, shape);
      MapOfKeys(Items(shape));
      if tree == 0 {
        return None;
      }
      var candidate := tree;
      ghost var c, t: Tree<V> := Top, shape;
      LookAt(c, t);
      while store[candidate].left != 0
        invariant Plug(c, t) == shape && t.Node? && candidate == Root(t) && InPlace(c, t) && Before(c) == []
        invariant candidate in store && store[candidate].key == t.item.key && store[candidate].value == t.item.value
        invariant store[candidate].left == Root(t.left) && (Root(t.left) == 0 <==> t.left.Leaf?)
        decreases t
      {
        candidate := store[candidate].left;
        StepDown(c, t);
        c, t := InLeft(t.item, t.bal, t.right, c), t.left;
        LookAt(c, t);
      }
      PlugItems(c, t);
      assert Items(t)[0] == t.item;
      assert Items(shape)[0] == t.item;
      MapOfAt(Items(shape), 0);
      r := Some((store[candidate].key, store[candidate].value));
    }

    /** Exact as long as the tree holds fewer than 2^32 elements and the counters have not crossed. */
    method Size() returns (n: nat)
      requires Valid() && insertions >= deletions && |Contents()| < WORD
      ensures n == |Contents()|
    {
      Open();
      Look(Top, shape);
      MapOfSize(Items(shape));
      CountZero(insertions, deletions, |Items(shape)|);
      assert (tree == 0) == (insertions == deletions) by {
        assert Rep(store, shape, 0);
      }
      n := insertions - deletions;
    }

    /** The authors' own invariant check passes, whatever operations led here: depths, counts, and the walk. */
    method Check() returns (ok: bool, ghost seen: set<Ptr>)
      requires Valid()
      ensures ok && seen == Ats(shape)
    {
      Open();
      Look(Top, shape);
      ok := true;
      var counted := 0;
      if tree != 0 {
        assert store[tree].parent == 0;
        RepShaped(store, shape, 0);
        SortedChildOrdered(shape);
        CheckExact(store, shape);
        var r := CheckAndReturnDepth(store, tree, shape);
        ok := r.Passed?;
        counted := r.counted;
      }
      ok := ok && (insertions - deletions) % WORD == counted % WORD;
      var walked;
      walked, seen := AvlWalk.Walk(store, tree, shape);
      ok := ok && walked;
    }
  }
}
