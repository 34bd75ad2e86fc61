/**
  The read-only recursions of `AVLNodeLogic` over the node store: the four
  neighbour searches, proved to return the true neighbour in key order, and
  `checkAndReturnDepth`, proved to accept exactly the linked, balanced trees
  whose nodes are ordered against their children.
 */
module AvlSearch {
  import opened AvlShape
  import opened AvlNodes
  import opened AvlSpec

  /** How a node's key compares with the one sought: below it, equal or above, by the sign. */
  type Sight = int -> int

  /** The order of the integers. */
  function Straight(k: int): Sight {
    n => n - k
  }

  /** On these items `sees` compares as the integers do with `k`. */
  ghost predicate Agrees<V>(sees: Sight, xs: seq<Item<V>>, k: int) {
    forall i :: 0 <= i < |xs| ==>
      (sees(xs[i].key) < 0 <==> xs[i].key < k) && (sees(xs[i].key) == 0 <==> xs[i].key == k)
  }

  lemma AgreesSplit<V>(sees: Sight, a: seq<Item<V>>, x: Item<V>, b: seq<Item<V>>, k: int)
    requires Agrees(sees, a + [x] + b, k)
    ensures Agrees(sees, a, k) && Agrees(sees, b, k)
    ensures (sees(x.key) < 0 <==> x.key < k) && (sees(x.key) == 0 <==> x.key == k)
  {
    var xs := a + [x] + b;
    assert xs[|a|] == x;
    assert forall i :: 0 <= i < |a| ==> xs[i] == a[i];
    assert forall i :: 0 <= i < |b| ==> xs[|a| + 1 + i] == b[i];
  }

  function ItemAt<V>(s: Store<V>, p: Ptr): Item<V>
    requires p in s
  {
    Item(p, s[p].key, s[p].value)
  }

  /** `r` is the node with the greatest key up to `k`; NULL when every key is above `k`. */
  ghost predicate Floor<V>(s: Store<V>, xs: seq<Item<V>>, k: int, r: Ptr) {
    if r == 0 then Above(xs, k)
    else
      && r in s && ItemAt(s, r) in xs && s[r].key <= k
      && forall i :: 0 <= i < |xs| && xs[i].key <= k ==> xs[i].key <= s[r].key
  }

  /** `r` is the node with the least key from `k` on; NULL when every key is below `k`. */
  ghost predicate Ceiling<V>(s: Store<V>, xs: seq<Item<V>>, k: int, r: Ptr) {
    if r == 0 then Below(xs, k)
    else
      && r in s && ItemAt(s, r) in xs && k <= s[r].key
      && forall i :: 0 <= i < |xs| && k <= xs[i].key ==> s[r].key <= xs[i].key
  }

  function FindFirstLessThan<V>(s: Store<V>, self: Ptr, sees: Sight, ghost t: Tree<V>, ghost parent: Ptr): Ptr
    requires t.Node? && self == Root(t) && Rep(s, t, parent)
    decreases t
  {
    if sees(s[self].key) < 0 then
      var r := if s[self].right != 0 then FindFirstLessThan(s, s[self].right, sees, t.right, self) else 0;
      if r == 0 then self else r
    else if s[self].left != 0 then FindFirstLessThan(s, s[self].left, sees, t.left, self)
    else 0
  }

  function FindFirstLessThanOrEqualTo<V>(s: Store<V>, self: Ptr, sees: Sight, ghost t: Tree<V>, ghost parent: Ptr): Ptr
    requires t.Node? && self == Root(t) && Rep(s, t, parent)
    decreases t
  {
    if sees(s[self].key) == 0 then self
    else if sees(s[self].key) < 0 then
      var r := if s[self].right != 0 then FindFirstLessThanOrEqualTo(s, s[self].right, sees, t.right, self) else 0;
      if r == 0 then self else r
    else if s[self].left != 0 then FindFirstLessThanOrEqualTo(s, s[self].left, sees, t.left, self)
    else 0
  }

  function FindFirstGreaterThan<V>(s: Store<V>, self: Ptr, sees: Sight, ghost t: Tree<V>, ghost parent: Ptr): Ptr
    requires t.Node? && self == Root(t) && Rep(s, t, parent)
    decreases t
  {
    if sees(s[self].key) > 0 then
      var r := if s[self].left != 0 then FindFirstGreaterThan(s, s[self].left, sees, t.left, self) else 0;
      if r == 0 then self else r
    else if s[self].right != 0 then FindFirstGreaterThan(s, s[self].right, sees, t.right, self)
    else 0
  }

  function FindFirstGreaterThanOrEqualTo<V>(s: Store<V>, self: Ptr, sees: Sight, ghost t: Tree<V>,
                                            ghost parent: Ptr): Ptr
    requires t.Node? && self == Root(t) && Rep(s, t, parent)
    decreases t
  {
    if sees(s[self].key) == 0 then self
    else if sees(s[self].key) > 0 then
      var r := if s[self].left != 0 then FindFirstGreaterThanOrEqualTo(s, s[self].left, sees, t.left, self) else 0;
      if r == 0 then self else r
    else if s[self].right != 0 then FindFirstGreaterThanOrEqualTo(s, s[self].right, sees, t.right, self)
    else 0
  }

  /** Going right: the node itself unless the right subtree has a better candidate. */
  lemma FloorRight<V>(s: Store<V>, a: seq<Item<V>>, x: Item<V>, b: seq<Item<V>>, k: int, r: Ptr)
    requires Sorted(a + [x] + b) && x.key <= k && x.at != 0 && x.at in s && x == ItemAt(s, x.at)
    requires Floor(s, b, k, r)
    ensures Floor(s, a + [x] + b, k, if r == 0 then x.at else r)
  {
    SortedSplit(a, x, b, k);
    var xs := a + [x] + b;
    assert xs[|a|] == x;
    assert forall i :: 0 <= i < |a| ==> xs[i] == a[i];
    assert forall i :: |a| < i < |xs| ==> xs[i] == b[i - |a| - 1];
  }

  lemma FloorLeft<V>(s: Store<V>, a: seq<Item<V>>, x: Item<V>, b: seq<Item<V>>, k: int, r: Ptr)
    requires Sorted(a + [x] + b) && k < x.key
    requires Floor(s, a, k, r)
    ensures Floor(s, a + [x] + b, k, r)
  {
    SortedSplit(a, x, b, k);
    var xs := a + [x] + b;
    assert xs[|a|] == x;
    assert forall i :: 0 <= i < |a| ==> xs[i] == a[i];
    assert forall i :: |a| < i < |xs| ==> xs[i] == b[i - |a| - 1];
  }

  lemma CeilingLeft<V>(s: Store<V>, a: seq<Item<V>>, x: Item<V>, b: seq<Item<V>>, k: int, r: Ptr)
    requires Sorted(a + [x] + b) && k <= x.key && x.at != 0 && x.at in s && x == ItemAt(s, x.at)
    requires Ceiling(s, a, k, r)
    ensures Ceiling(s, a + [x] + b, k, if r == 0 then x.at else r)
  {
    SortedSplit(a, x, b, k);
    var xs := a + [x] + b;
    assert xs[|a|] == x;
    assert forall i :: 0 <= i < |a| ==> xs[i] == a[i];
    assert forall i :: |a| < i < |xs| ==> xs[i] == b[i - |a| - 1];
  }

  lemma CeilingRight<V>(s: Store<V>, a: seq<Item<V>>, x: Item<V>, b: seq<Item<V>>, k: int, r: Ptr)
    requires Sorted(a + [x] + b) && x.key < k
    requires Ceiling(s, b, k, r)
    ensures Ceiling(s, a + [x] + b, k, r)
  {
    SortedSplit(a, x, b, k);
    var xs := a + [x] + b;
    assert xs[|a|] == x;
    assert forall i :: 0 <= i < |a| ==> xs[i] == a[i];
    assert forall i :: |a| < i < |xs| ==> xs[i] == b[i - |a| - 1];
  }

  lemma {:induction false} FindFirstLessThanOrEqualToOk<V>(s: Store<V>, sees: Sight, k: int, t: Tree<V>, parent: Ptr)
    requires t.Node? && Rep(s, t, parent) && Sorted(Items(t)) && Agrees(sees, Items(t), k)
    ensures Floor(s, Items(t), k, FindFirstLessThanOrEqualTo(s, Root(t), sees, t, parent))
    decreases t
  {
    var l, x, r := Items(t.left), t.item, Items(t.right);
    SortedSplit(l, x, r, k);
    AgreesSplit(sees, l, x, r, k);
    if x.key <= k {
      if x.key < k && t.right.Node? {
        FindFirstLessThanOrEqualToOk(s, sees, k, t.right, x.at);
        FloorRight(s, l, x, r, k, FindFirstLessThanOrEqualTo(s, Root(t.right), sees, t.right, x.at));
      } else {
        FloorRight(s, l, x, r, k, 0);
      }
    } else {
      if t.left.Node? {
        FindFirstLessThanOrEqualToOk(s, sees, k, t.left, x.at);
      }
      FloorLeft(s, l, x, r, k,
                if t.left.Node? then FindFirstLessThanOrEqualTo(s, Root(t.left), sees, t.left, x.at) else 0);
    }
  }

  lemma {:induction false} FindFirstLessThanOk<V>(s: Store<V>, sees: Sight, k: int, t: Tree<V>, parent: Ptr)
    requires t.Node? && Rep(s, t, parent) && Sorted(Items(t)) && Agrees(sees, Items(t), k)
    ensures Floor(s, Items(t), k - 1, FindFirstLessThan(s, Root(t), sees, t, parent))
    decreases t
  {
    var l, x, r := Items(t.left), t.item, Items(t.right);
    SortedSplit(l, x, r, k);
    AgreesSplit(sees, l, x, r, k);
    if x.key < k {
      if t.right.Node? {
        FindFirstLessThanOk(s, sees, k, t.right, x.at);
      }
      FloorRight(s, l, x, r, k - 1,
                 if t.right.Node? then FindFirstLessThan(s, Root(t.right), sees, t.right, x.at) else 0);
    } else {
      if t.left.Node? {
        FindFirstLessThanOk(s, sees, k, t.left, x.at);
      }
      FloorLeft(s, l, x, r, k - 1, if t.left.Node? then FindFirstLessThan(s, Root(t.left), sees, t.left, x.at) else 0);
    }
  }

  lemma {:induction false} FindFirstGreaterThanOrEqualToOk<V>(s: Store<V>, sees: Sight, k: int, t: Tree<V>, parent: Ptr)
    requires t.Node? && Rep(s, t, parent) && Sorted(Items(t)) && Agrees(sees, Items(t), k)
    ensures Ceiling(s, Items(t), k, FindFirstGreaterThanOrEqualTo(s, Root(t), sees, t, parent))
    decreases t
  {
    var l, x, r := Items(t.left), t.item, Items(t.right);
    SortedSplit(l, x, r, k);
    AgreesSplit(sees, l, x, r, k);
    if k <= x.key {
      if k < x.key && t.left.Node? {
        FindFirstGreaterThanOrEqualToOk(s, sees, k, t.left, x.at);
        CeilingLeft(s, l, x, r, k, FindFirstGreaterThanOrEqualTo(s, Root(t.left), sees, t.left, x.at));
      } else {
        CeilingLeft(s, l, x, r, k, 0);
      }
    } else {
      if t.right.Node? {
        FindFirstGreaterThanOrEqualToOk(s, sees, k, t.right, x.at);
      }
      CeilingRight(s, l, x, r, k,
                   if t.right.Node? then FindFirstGreaterThanOrEqualTo(s, Root(t.right), sees, t.right, x.at) else 0);
    }
  }

  lemma {:induction false} FindFirstGreaterThanOk<V>(s: Store<V>, sees: Sight, k: int, t: Tree<V>, parent: Ptr)
    requires t.Node? && Rep(s, t, parent) && Sorted(Items(t)) && Agrees(sees, Items(t), k)
    ensures Ceiling(s, Items(t), k + 1, FindFirstGreaterThan(s, Root(t), sees, t, parent))
    decreases t
  {
    var l, x, r := Items(t.left), t.item, Items(t.right);
    SortedSplit(l, x, r, k);
    AgreesSplit(sees, l, x, r, k);
    if k < x.key {
      if t.left.Node? {
        FindFirstGreaterThanOk(s, sees, k, t.left, x.at);
      }
      CeilingLeft(s, l, x, r, k + 1,
                  if t.left.Node? then FindFirstGreaterThan(s, Root(t.left), sees, t.left, x.at) else 0);
    } else {
      if t.right.Node? {
        FindFirstGreaterThanOk(s, sees, k, t.right, x.at);
      }
      CeilingRight(s, l, x, r, k + 1,
                   if t.right.Node? then FindFirstGreaterThan(s, Root(t.right), sees, t.right, x.at) else 0);
    }
  }

  // ----- searching with a comparison that may be out of step with the tree -----

  /** Whatever the comparison says, the search up returns a node it sees at or above the key, or none. */
  lemma {:induction false} AtOrAboveSeen<V>(s: Store<V>, sees: Sight, t: Tree<V>, parent: Ptr)
    requires t.Node? && Rep(s, t, parent)
    ensures var r := FindFirstGreaterThanOrEqualTo(s, Root(t), sees, t, parent);
      && (r != 0 ==> r in s && ItemAt(s, r) in Items(t) && sees(s[r].key) >= 0)
      && (sees(t.item.key) >= 0 ==> r != 0)
    decreases t
  {
    if t.left.Node? {
      AtOrAboveSeen(s, sees, t.left, t.item.at);
    }
    if t.right.Node? {
      AtOrAboveSeen(s, sees, t.right, t.item.at);
    }
  }

  lemma {:induction false} AboveSeen<V>(s: Store<V>, sees: Sight, t: Tree<V>, parent: Ptr)
    requires t.Node? && Rep(s, t, parent)
    ensures var r := FindFirstGreaterThan(s, Root(t), sees, t, parent);
      && (r != 0 ==> r in s && ItemAt(s, r) in Items(t) && sees(s[r].key) > 0)
      && (sees(t.item.key) > 0 ==> r != 0)
    decreases t
  {
    if t.left.Node? {
      AboveSeen(s, sees, t.left, t.item.at);
    }
    if t.right.Node? {
      AboveSeen(s, sees, t.right, t.item.at);
    }
  }

  lemma {:induction false} AtOrBelowSeen<V>(s: Store<V>, sees: Sight, t: Tree<V>, parent: Ptr)
    requires t.Node? && Rep(s, t, parent)
    ensures var r := FindFirstLessThanOrEqualTo(s, Root(t), sees, t, parent);
      r != 0 ==> r in s && ItemAt(s, r) in Items(t) && sees(s[r].key) <= 0
    decreases t
  {
    if t.left.Node? {
      AtOrBelowSeen(s, sees, t.left, t.item.at);
    }
    if t.right.Node? {
      AtOrBelowSeen(s, sees, t.right, t.item.at);
    }
  }

  /** The comparison runs against the tree: whatever is seen above the key has only such keys before it. */
  ghost predicate Backwards<V>(sees: Sight, xs: seq<Item<V>>) {
    && (forall i :: 0 <= i < |xs| ==> sees(xs[i].key) != 0)
    && (forall i, j :: 0 <= i < j < |xs| && sees(xs[j].key) > 0 ==> sees(xs[i].key) > 0)
  }

  /** Then the root alone decides whether a search up finds anything. */
  lemma BackwardsRoot<V>(s: Store<V>, sees: Sight, t: Tree<V>, parent: Ptr)
    requires t.Node? && Rep(s, t, parent) && Backwards(sees, Items(t))
    ensures FindFirstGreaterThanOrEqualTo(s, Root(t), sees, t, parent) != 0 <==> sees(t.item.key) > 0
    ensures FindFirstGreaterThan(s, Root(t), sees, t, parent) != 0 <==> sees(t.item.key) > 0
  {
    AtOrAboveSeen(s, sees, t, parent);
    AboveSeen(s, sees, t, parent);
    var xs, n := Items(t), |Items(t.left)|;
    assert xs[n] == t.item;
    if sees(t.item.key) < 0 && t.right.Node? {
      assert forall i :: 0 <= i < |Items(t.right)| ==> Items(t.right)[i] == xs[n + 1 + i];
      AtOrAboveSeen(s, sees, t.right, t.item.at);
      AboveSeen(s, sees, t.right, t.item.at);
    }
  }

  // ----- checkAndReturnDepth -----

  datatype Checked = AssertFails | Passed(depth: nat, counted: nat)

  /** The left and right links spell out `t`; nothing is said about parents, order or balance. */
  ghost predicate Shaped<V>(s: Store<V>, t: Tree<V>) {
    t.Node? ==>
      var p := t.item.at;
      && p != 0 && p in s
      && s[p] == Cell(Root(t.left), Root(t.right), s[p].parent, t.bal, t.item.key, t.item.value)
      && Shaped(s, t.left) && Shaped(s, t.right)
  }

  function CheckAndReturnDepth<V>(s: Store<V>, self: Ptr, ghost t: Tree<V>): Checked
    requires t.Node? && self == Root(t) && Shaped(s, t)
    decreases t
  {
    var left, right := s[self].left, s[self].right;
    assert Shaped(s, t.left) && Shaped(s, t.right);
    if s[self].bal == AVLNew then AssertFails
    else if left != 0 && s[left].parent != self then AssertFails
    else if right != 0 && s[right].parent != self then AssertFails
    else if right != 0 && !(s[self].key < s[right].key) then AssertFails
    else if left != 0 && !(s[self].key > s[left].key) then AssertFails
    else
      var l := if left != 0 then CheckAndReturnDepth(s, left, t.left) else Passed(0, 0);
      var r := if right != 0 then CheckAndReturnDepth(s, right, t.right) else Passed(0, 0);
      if l.AssertFails? || r.AssertFails? then AssertFails
      else if l.depth == r.depth && s[self].bal == AVLBalanced then Passed(l.depth + 1, l.counted + r.counted + 1)
      else if l.depth == r.depth + 1 && s[self].bal == AVLLeft then Passed(l.depth + 1, l.counted + r.counted + 1)
      else if l.depth + 1 == r.depth && s[self].bal == AVLRight then Passed(r.depth + 1, l.counted + r.counted + 1)
      else AssertFails
  }

  /** Every node's key separates the keys of its two children. */
  predicate ChildOrdered<V>(t: Tree<V>) {
    t.Node? ==>
      && (t.left.Node? ==> t.left.item.key < t.item.key)
      && (t.right.Node? ==> t.item.key < t.right.item.key)
      && ChildOrdered(t.left) && ChildOrdered(t.right)
  }

  /** Every child's parent link points back. */
  ghost predicate BackLinked<V>(s: Store<V>, t: Tree<V>)
    requires Shaped(s, t)
  {
    t.Node? ==>
      assert Shaped(s, t.left) && Shaped(s, t.right);
      && (t.left.Node? ==> s[Root(t.left)].parent == Root(t))
      && (t.right.Node? ==> s[Root(t.right)].parent == Root(t))
      && BackLinked(s, t.left) && BackLinked(s, t.right)
  }

  /** The check accepts exactly the back-linked, child-ordered trees with exact balance factors, and measures them. */
  lemma {:induction false} CheckExact<V>(s: Store<V>, t: Tree<V>)
    requires t.Node? && Shaped(s, t)
    ensures var r := CheckAndReturnDepth(s, Root(t), t);
            && (r.Passed? <==> BackLinked(s, t) && Avl(t) && ChildOrdered(t))
            && (r.Passed? ==> r.depth == Height(t) && r.counted == |Items(t)|)
    decreases t
  {
    if t.left.Node? {
      CheckExact(s, t.left);
    }
    if t.right.Node? {
      CheckExact(s, t.right);
    }
  }

  lemma {:induction false} RepShaped<V>(s: Store<V>, t: Tree<V>, parent: Ptr)
    requires Rep(s, t, parent)
    ensures Shaped(s, t) && BackLinked(s, t)
    decreases t
  {
    if t.Node? {
      RepShaped(s, t.left, t.item.at);
      RepShaped(s, t.right, t.item.at);
    }
  }

  lemma {:induction false} SortedChildOrdered<V>(t: Tree<V>)
    requires Sorted(Items(t))
    ensures ChildOrdered(t)
    decreases t
  {
    if t.Node? {
      SortedSplit(Items(t.left), t.item, Items(t.right), t.item.key);
      SortedChildOrdered(t.left);
      SortedChildOrdered(t.right);
      if t.left.Node? {
        assert Items(t.left)[|Items(t.left.left)|] == t.left.item;
      }
      if t.right.Node? {
        assert Items(t.right)[|Items(t.right.left)|] == t.right.item;
      }
    }
  }

  lemma GrandchildOutOfOrder<V>(t: Tree<V>)
    requires t.Node? && t.left.Node? && t.left.right.Node? && t.item.key < t.left.right.item.key
    ensures !Sorted(Items(t))
  {
    var g, l := t.left.right, Items(t.left);
    var i := |Items(t.left.left)| + 1 + |Items(g.left)|;
    assert Items(g)[|Items(g.left)|] == g.item;
    assert l[i] == g.item;
    assert Items(t)[i] == g.item && Items(t)[|l|] == t.item;
  }

  /** A tree whose left child's right child is above the root, and a store that holds it. */
  lemma OutOfOrderTree() returns (s: Store<bool>, t: Tree<bool>)
    ensures t.Node? && Shaped(s, t) && BackLinked(s, t)
    ensures t.left == Node(Leaf, Item(2, 10, true), AVLRight, Node(Leaf, Item(3, 30, true), AVLBalanced, Leaf))
    ensures t.right == Node(Leaf, Item(4, 25, true), AVLBalanced, Leaf) && t.item.key == 20 && t.bal == AVLLeft
  {
    var n3 := Node(Leaf, Item(3, 30, true), AVLBalanced, Leaf);
    var n4 := Node(Leaf, Item(4, 25, true), AVLBalanced, Leaf);
    var n2 := Node(Leaf, Item(2, 10, true), AVLRight, n3);
    t := Node(n2, Item(1, 20, true), AVLLeft, n4);
    s := map[
      1 := Cell(2, 4, 0, AVLLeft, 20, true), 2 := Cell(0, 3, 1, AVLRight, 10, true),
      3 := Cell(0, 0, 2, AVLBalanced, 30, true), 4 := Cell(0, 0, 1, AVLBalanced, 25, true)];
    assert Rep(s, n3, 2) && Rep(s, n4, 1);
    assert Rep(s, n2, 1);
    RepShaped(s, t, 0);
  }

  /** The check compares neighbours only: a tree may pass it and still be out of search order. */
  lemma CheckMissesSearchOrder() returns (s: Store<bool>, t: Tree<bool>)
    ensures t.Node? && Shaped(s, t)
    ensures CheckAndReturnDepth(s, Root(t), t).Passed? && !Sorted(Items(t))
  {
    s, t := OutOfOrderTree();
    assert Avl(t.left.right) && Height(t.left.right) == 1 && Avl(t.left) && Height(t.left) == 2;
    assert ChildOrdered(t.left.right) && ChildOrdered(t.left);
    CheckExact(s, t);
    GrandchildOutOfOrder(t);
  }
}
