/**
  Whole-tree insertion and removal on values: what the linked code of
  `AVLNodeLogic` computes, and why the result is again a search tree with
  exact balance factors that holds exactly the right elements.
 */
module AvlSpec {
  import opened AvlShape

  // ----- search order and contents -----

  predicate Sorted<V>(s: seq<Item<V>>) {
    forall i, j :: 0 <= i < j < |s| ==> s[i].key < s[j].key
  }

  predicate Below<V>(s: seq<Item<V>>, k: int) {
    forall i :: 0 <= i < |s| ==> s[i].key < k
  }

  predicate Above<V>(s: seq<Item<V>>, k: int) {
    forall i :: 0 <= i < |s| ==> k < s[i].key
  }

  predicate HasKey<V>(s: seq<Item<V>>, k: int) {
    exists i :: 0 <= i < |s| && s[i].key == k
  }

  function MapOf<V>(s: seq<Item<V>>): map<int, V> {
    if s == [] then map[] else MapOf(s[..|s|-1])[s[|s|-1].key := s[|s|-1].value]
  }

  lemma {:induction false} MapOfKeys<V>(s: seq<Item<V>>)
    ensures forall k :: k in MapOf(s) <==> HasKey(s, k)
  {
    if s != [] {
      var p := s[..|s|-1];
      MapOfKeys(p);
      forall k ensures k in MapOf(s) <==> HasKey(s, k) {
        if HasKey(p, k) {
          var i :| 0 <= i < |p| && p[i].key == k;
          assert s[i].key == k;
        }
        if HasKey(s, k) && k != s[|s|-1].key {
          var i :| 0 <= i < |s| && s[i].key == k;
          assert p[i].key == k;
        }
      }
    }
  }

  lemma {:induction false} MapOfAt<V>(s: seq<Item<V>>, i: nat)
    requires Sorted(s) && i < |s|
    ensures s[i].key in MapOf(s) && MapOf(s)[s[i].key] == s[i].value
  {
    if i < |s| - 1 {
      var p := s[..|s|-1];
      MapOfAt(p, i);
      assert p[i] == s[i];
    }
  }

  lemma {:induction false} MapOfSize<V>(s: seq<Item<V>>)
    requires Sorted(s)
    ensures |MapOf(s)| == |s|
  {
    if s != [] {
      var p := s[..|s|-1];
      MapOfSize(p);
      MapOfKeys(p);
      assert s[|s|-1].key !in MapOf(p);
    }
  }

  lemma MapOfLast<V>(s: seq<Item<V>>, z: Item<V>)
    ensures MapOf(s + [z]) == MapOf(s)[z.key := z.value]
  {}

  lemma {:induction false} MapOfAppend<V>(a: seq<Item<V>>, b: seq<Item<V>>)
    ensures MapOf(a + b) == MapOf(a) + MapOf(b)
    decreases |b|
  {
    if b == [] {
      assert a + b == a;
    } else {
      var p, z := b[..|b|-1], b[|b|-1];
      assert a + b == (a + p) + [z] && b == p + [z];
      MapOfAppend(a, p);
      MapOfLast(a + p, z);
    }
  }

  /** Putting one item between two sorted halves adds exactly its key. */
  lemma {:induction false} MapOfInsert<V>(a: seq<Item<V>>, x: Item<V>, b: seq<Item<V>>)
    requires Sorted(a + [x] + b)
    ensures MapOf(a + [x] + b) == MapOf(a + b)[x.key := x.value]
    ensures x.key !in MapOf(a + b)
  {
    SortedSplit(a, x, b, x.key);
    MapOfAppend(a, b);
    MapOfAppend(a + [x], b);
    MapOfLast(a, x);
    MapOfKeys(a);
    MapOfKeys(b);
  }

  lemma SortedSplit<V>(a: seq<Item<V>>, x: Item<V>, b: seq<Item<V>>, k: int)
    requires Sorted(a + [x] + b)
    ensures Sorted(a) && Sorted(b) && Below(a, x.key) && Above(b, x.key)
    ensures HasKey(a + [x] + b, k) <==> k == x.key || HasKey(a, k) || HasKey(b, k)
  {
    var s := a + [x] + b;
    assert s[|a|] == x;
    assert forall i :: 0 <= i < |a| ==> a[i] == s[i];
    assert forall i :: 0 <= i < |b| ==> b[i] == s[|a| + 1 + i];
    assert forall i :: |a| < i < |s| ==> s[i] == b[i - |a| - 1];
  }

  // ----- insertion -----

  /** The search for the leaf position of `k`, remembered as a context. */
  function Descend<V>(c: Ctx<V>, t: Tree<V>, k: int): Ctx<V>
    decreases t
  {
    match t
    case Leaf => c
    case Node(l, x, b, r) =>
      if x.key < k then Descend(InRight(l, x, b, c), r, k) else Descend(InLeft(x, b, r, c), l, k)
  }

  function Inserted<V>(t: Tree<V>, x: Item<V>): Tree<V> {
    Grow(Descend(Top, t, x.key), Node(Leaf, x, AVLBalanced, Leaf))
  }

  lemma {:induction false} DescendOk<V>(c: Ctx<V>, t: Tree<V>, k: int)
    requires Sorted(Items(t)) && !HasKey(Items(t), k)
    requires Below(Before(c), k) && Above(After(c), k)
    ensures Plug(Descend(c, t, k), Leaf) == Plug(c, t)
    ensures Below(Before(Descend(c, t, k)), k) && Above(After(Descend(c, t, k)), k)
    decreases t
  {
    if t.Node? {
      SortedSplit(Items(t.left), t.item, Items(t.right), k);
      if t.item.key < k {
        DescendOk(InRight(t.left, t.item, t.bal, c), t.right, k);
      } else {
        DescendOk(InLeft(t.item, t.bal, t.right, c), t.left, k);
      }
    }
  }

  /** For every AVL search tree and absent key, insertion adds exactly that item and restores order and balance. */
  lemma {:induction false} InsertedOk<V>(t: Tree<V>, x: Item<V>) returns (a: seq<Item<V>>, b: seq<Item<V>>)
    requires Avl(t) && Sorted(Items(t)) && x.key !in MapOf(Items(t))
    ensures Items(t) == a + b && Items(Inserted(t, x)) == a + [x] + b
    ensures Avl(Inserted(t, x)) && Sorted(Items(Inserted(t, x)))
    ensures MapOf(Items(Inserted(t, x))) == MapOf(Items(t))[x.key := x.value]
  {
    MapOfKeys(Items(t));
    var c := Descend(Top, t, x.key);
    var n: Tree<V> := Node(Leaf, x, AVLBalanced, Leaf);
    DescendOk(Top, t, x.key);
    PlugAvl(c, Leaf);
    PlugItems(c, Leaf);
    PlugItems(c, n);
    GrowOk(c, n);
    a, b := Before(c), After(c);
    assert a + [] + b == a + b;
    assert Items(n) == [x];
    SortedInsert(a, x, b);
    MapOfInsert(a, x, b);
  }

  lemma SortedInsert<V>(a: seq<Item<V>>, x: Item<V>, b: seq<Item<V>>)
    requires Sorted(a + b) && Below(a, x.key) && Above(b, x.key)
    ensures Sorted(a + [x] + b)
  {
    var s := a + [x] + b;
    forall i, j | 0 <= i < j < |s| ensures s[i].key < s[j].key {
      var i', j' := if i <= |a| then i else i - 1, if j <= |a| then j else j - 1;
      assert i != |a| ==> s[i] == (a + b)[i'];
      assert j != |a| ==> s[j] == (a + b)[j'];
    }
  }

  lemma SortedRemove<V>(a: seq<Item<V>>, x: Item<V>, b: seq<Item<V>>)
    requires Sorted(a + [x] + b)
    ensures Sorted(a + b)
  {
    var s := a + [x] + b;
    forall i, j | 0 <= i < j < |a + b| ensures (a + b)[i].key < (a + b)[j].key {
      assert (a + b)[i] == s[if i < |a| then i else i + 1];
      assert (a + b)[j] == s[if j < |a| then j else j + 1];
    }
  }

  // ----- removal -----

  /** The context in which the node with key `k` hangs. */
  function Seek<V>(c: Ctx<V>, t: Tree<V>, k: int): (Ctx<V>, Tree<V>)
    decreases t
  {
    match t
    case Leaf => (c, t)
    case Node(l, x, b, r) =>
      if x.key == k then (c, t)
      else if x.key < k then Seek(InRight(l, x, b, c), r, k)
      else Seek(InLeft(x, b, r, c), l, k)
  }

  /** The way down to the leftmost node. */
  function Leftmost<V>(c: Ctx<V>, t: Tree<V>): (Ctx<V>, Tree<V>)
    decreases t
  {
    if t.Leaf? || t.left.Leaf? then (c, t)
    else Leftmost(InLeft(t.item, t.bal, t.right, c), t.left)
  }

  /**
    Removal of the root of `t` inside `c`. With two children the symmetric
    successor takes over the node's place and balance factor, and the walk
    starts where the successor used to hang.
   */
  function RemovedAt<V>(c: Ctx<V>, t: Tree<V>): Tree<V>
    requires t.Node?
  {
    if t.left.Leaf? then Shrink(c, t.right)
    else if t.right.Leaf? then Shrink(c, t.left)
    else
      var y := Leftmost(Top, t.right).1;
      if y.Leaf? then t else Shrink(Successor(c, t), y.right)
  }

  /** The context of the symmetric successor's old place, with the successor already promoted. */
  function Successor<V>(c: Ctx<V>, t: Tree<V>): Ctx<V>
    requires t.Node? && t.right.Node?
  {
    var y := Leftmost(Top, t.right).1;
    if y.Leaf? then c else Leftmost(InRight(t.left, y.item, t.bal, c), t.right).0
  }

  function Removed<V>(t: Tree<V>, k: int): Tree<V> {
    var (c, u) := Seek(Top, t, k);
    if u.Leaf? then t else RemovedAt(c, u)
  }

  /** A tree without its leftmost node. */
  function DropMin<V>(t: Tree<V>): Tree<V> {
    if t.Leaf? then t
    else if t.left.Leaf? then t.right
    else Node(DropMin(t.left), t.item, t.bal, t.right)
  }

  lemma {:induction false} LeftmostDrop<V>(c: Ctx<V>, t: Tree<V>)
    requires t.Node?
    ensures var (e, y) := Leftmost(c, t);
            y.Node? && Plug(e, y.right) == Plug(c, DropMin(t))
    decreases t
  {
    if !t.left.Leaf? {
      LeftmostDrop(InLeft(t.item, t.bal, t.right, c), t.left);
    }
  }

  lemma {:induction false} LeftmostOk<V>(c: Ctx<V>, d: Ctx<V>, t: Tree<V>)
    requires t.Node?
    ensures var (e, y) := Leftmost(c, t);
            && y.Node? && y.left.Leaf? && y == Leftmost(d, t).1
            && Plug(e, y) == Plug(c, t)
            && Before(e) == Before(c)
            && Items(t) + After(c) == Items(y) + After(e)
    decreases t
  {
    if !t.left.Leaf? {
      var f, g := InLeft(t.item, t.bal, t.right, c), InLeft(t.item, t.bal, t.right, d);
      LeftmostOk(f, g, t.left);
      assert Items(t.left) + After(f) == Items(t) + After(c);
    }
  }

  /** Where the leftmost node hangs does not depend on the context outside. */
  lemma {:induction false} LeftmostTop<V>(c: Ctx<V>, d: Ctx<V>, t: Tree<V>)
    requires t.Node? && t.left.Node?
    ensures var e, f := Leftmost(c, t).0, Leftmost(d, t).0;
            e.InLeft? && f.InLeft? && e.item == f.item && Leftmost(c, t).1 == Leftmost(d, t).1
    decreases t
  {
    if t.left.left.Node? {
      LeftmostTop(InLeft(t.item, t.bal, t.right, c), InLeft(t.item, t.bal, t.right, d), t.left);
    }
  }

  lemma {:induction false} SeekOk<V>(c: Ctx<V>, t: Tree<V>, k: int)
    requires Sorted(Items(t))
    ensures var (d, u) := Seek(c, t, k);
            Plug(d, u) == Plug(c, t) && (u.Node? ==> u.item.key == k) && (u.Node? <==> HasKey(Items(t), k))
    decreases t
  {
    if t.Node? {
      SortedSplit(Items(t.left), t.item, Items(t.right), k);
      if t.item.key < k {
        SeekOk(InRight(t.left, t.item, t.bal, c), t.right, k);
      } else if k < t.item.key {
        SeekOk(InLeft(t.item, t.bal, t.right, c), t.left, k);
      }
    }
  }

  /** Where the removal walk starts: everything around the hole is still balanced for the old height. */
  lemma {:induction false} SuccessorAvl<V>(c: Ctx<V>, t: Tree<V>)
    requires t.Node? && t.right.Node?
    requires Avl(t) && AvlCtx(c, Height(t))
    ensures var y := Leftmost(Top, t.right).1;
            y.Node? && y.left.Leaf? && Avl(y.right) && AvlCtx(Successor(c, t), Height(y.right) + 1)
  {
    LeftmostOk(Top, Top, t.right);
    var y := Leftmost(Top, t.right).1;
    var f := InRight(t.left, y.item, t.bal, c);
    LeftmostOk(f, Top, t.right);
    PlugAvl(f, t.right);
    PlugAvl(Leftmost(f, t.right).0, y);
  }

  lemma {:induction false} SuccessorItems<V>(c: Ctx<V>, t: Tree<V>)
    requires t.Node? && t.right.Node?
    ensures var y := Leftmost(Top, t.right).1;
            y.Node? && Items(Plug(Successor(c, t), y.right)) == Before(c) + (Items(t.left) + Items(t.right)) + After(c)
  {
    LeftmostOk(Top, Top, t.right);
    var y := Leftmost(Top, t.right).1;
    var f := InRight(t.left, y.item, t.bal, c);
    LeftmostOk(f, Top, t.right);
    var e := Leftmost(f, t.right).0;
    PlugItems(e, y.right);
    assert Items(y) == [y.item] + Items(y.right);
    SpliceSuccessor(Before(c), Items(t.left), y.item, Items(y.right), After(e), Items(t.right), After(c));
  }

  lemma SpliceSuccessor<V>(a: seq<V>, l: seq<V>, y: V, r: seq<V>, e: seq<V>, t: seq<V>, z: seq<V>)
    requires t + z == [y] + r + e
    ensures (a + (l + [y])) + r + e == a + (l + t) + z
  {
    assert (a + (l + [y])) + r + e == (a + l) + ([y] + r + e);
    assert a + (l + t) + z == (a + l) + (t + z);
  }

  lemma {:induction false} RemovedAtOk<V>(c: Ctx<V>, t: Tree<V>)
    requires t.Node? && Avl(Plug(c, t))
    ensures Avl(RemovedAt(c, t))
    ensures Items(RemovedAt(c, t)) == Before(c) + (Items(t.left) + Items(t.right)) + After(c)
  {
    PlugAvl(c, t);
    if t.left.Leaf? {
      ShrinkOk(c, t.right);
      PlugItems(c, t.right);
      assert Items(t.left) + Items(t.right) == Items(t.right);
    } else if t.right.Leaf? {
      ShrinkOk(c, t.left);
      PlugItems(c, t.left);
      assert Items(t.left) + Items(t.right) == Items(t.left);
    } else {
      SuccessorAvl(c, t);
      SuccessorItems(c, t);
      ShrinkOk(Successor(c, t), Leftmost(Top, t.right).1.right);
    }
  }

  lemma {:induction false} RemovedItems<V>(t: Tree<V>, k: int) returns (a: seq<Item<V>>, x: Item<V>, b: seq<Item<V>>)
    requires Avl(t) && Sorted(Items(t)) && HasKey(Items(t), k)
    ensures x.key == k && Items(t) == a + [x] + b && Items(Removed(t, k)) == a + b
    ensures Avl(Removed(t, k))
  {
    SeekOk(Top, t, k);
    var (c, u) := Seek(Top, t, k);
    PlugItems(c, u);
    RemovedAtOk(c, u);
    a, x, b := Before(c) + Items(u.left), u.item, Items(u.right) + After(c);
    SpliceNode(Before(c), Items(u.left), x, Items(u.right), After(c));
  }

  lemma SpliceNode<V>(a: seq<V>, l: seq<V>, x: V, r: seq<V>, z: seq<V>)
    ensures a + (l + [x] + r) + z == (a + l) + [x] + (r + z)
    ensures a + (l + r) + z == (a + l) + (r + z)
  {}

  /** For every AVL search tree and present key, removal drops exactly that item and restores order and balance. */
  lemma {:induction false} RemovedOk<V>(t: Tree<V>, k: int) returns (a: seq<Item<V>>, x: Item<V>, b: seq<Item<V>>)
    requires Avl(t) && Sorted(Items(t)) && k in MapOf(Items(t))
    ensures x.key == k && Items(t) == a + [x] + b && Items(Removed(t, k)) == a + b
    ensures Avl(Removed(t, k)) && Sorted(Items(Removed(t, k)))
    ensures MapOf(Items(t))[k] == x.value
    ensures MapOf(Items(Removed(t, k))) == MapOf(Items(t)) - {k}
  {
    MapOfKeys(Items(t));
    a, x, b := RemovedItems(t, k);
    SortedRemove(a, x, b);
    MapOfInsert(a, x, b);
  }

  // ----- whole runs -----

  datatype Op<V> = Insert(item: Item<V>) | Remove(key: int)

  function Run<V>(ops: seq<Op<V>>): Tree<V> {
    if ops == [] then Leaf
    else
      var t := Run(ops[..|ops|-1]);
      match ops[|ops|-1]
      case Insert(x) => Inserted(t, x)
      case Remove(k) => Removed(t, k)
  }

  /** The dictionary a run is meant to build. */
  function Model<V>(ops: seq<Op<V>>): map<int, V> {
    if ops == [] then map[]
    else
      var m := Model(ops[..|ops|-1]);
      match ops[|ops|-1]
      case Insert(x) => m[x.key := x.value]
      case Remove(k) => m - {k}
  }

  /** Callers never insert a key that is already there. */
  predicate Legal<V>(ops: seq<Op<V>>) {
    ops == [] ||
    (Legal(ops[..|ops|-1]) && (ops[|ops|-1].Insert? ==> ops[|ops|-1].item.key !in Model(ops[..|ops|-1])))
  }

  /** After every legal run the tree is a balanced search tree with exactly the model's contents. */
  lemma {:induction false} RunOk<V>(ops: seq<Op<V>>)
    requires Legal(ops)
    ensures Avl(Run(ops)) && Sorted(Items(Run(ops)))
    ensures MapOf(Items(Run(ops))) == Model(ops)
  {
    if ops != [] {
      var p := ops[..|ops|-1];
      RunOk(p);
      match ops[|ops|-1]
      case Insert(x) =>
        var a, b := InsertedOk(Run(p), x);
      case Remove(k) =>
        MapOfKeys(Items(Run(p)));
        SeekOk(Top, Run(p), k);
        if k in Model(p) {
          var a, x, b := RemovedOk(Run(p), k);
        } else {
          assert Model(p) - {k} == Model(p);
        }
    }
  }
}
