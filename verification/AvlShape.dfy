/**
  The shape layer of the AVL tree: trees as values, a one-hole context for the
  upward walks, the two rotations, and the two rebalancing walks `Grow` (the
  hole's subtree got one deeper) and `Shrink` (it got one shorter).
  Every walk is proved to restore exact balance factors and to keep the
  in-order item sequence.
 */
module AvlShape {

  /** A node address; 0 is NULL. */
  type Ptr = nat

  datatype Balance = AVLNew | AVLLeft | AVLBalanced | AVLRight

  function Other(side: Balance): Balance {
    if side == AVLLeft then AVLRight else AVLLeft
  }

  /** A node's identity together with the element it carries. */
  datatype Item<V> = Item(at: Ptr, key: int, value: V)

  datatype Tree<V> =
    | Leaf
    | Node(left: Tree<V>, item: Item<V>, bal: Balance, right: Tree<V>)

  /** The rest of a tree around one subtree, innermost frame first. */
  datatype Ctx<V> =
    | Top
    | InLeft(item: Item<V>, bal: Balance, right: Tree<V>, up: Ctx<V>)
    | InRight(left: Tree<V>, item: Item<V>, bal: Balance, up: Ctx<V>)

  /** The node around the hole, with its balance factor set to `b`. */
  function FillAs<V>(c: Ctx<V>, t: Tree<V>, b: Balance): Tree<V>
    requires c != Top
  {
    match c
    case InLeft(x, _, r, _) => Node(t, x, b, r)
    case InRight(l, x, _, _) => Node(l, x, b, t)
  }

  function Fill<V>(c: Ctx<V>, t: Tree<V>): Tree<V>
    requires c != Top
  {
    FillAs(c, t, c.bal)
  }

  /** The side of its parent on which the hole hangs. */
  function Side<V>(c: Ctx<V>): Balance
    requires c != Top
  {
    if c.InRight? then AVLRight else AVLLeft
  }

  function Plug<V>(c: Ctx<V>, t: Tree<V>): Tree<V>
    decreases c
  {
    if c == Top then t else Plug(c.up, Fill(c, t))
  }

  // ----- in-order view -----

  function Items<V>(t: Tree<V>): seq<Item<V>> {
    match t
    case Leaf => []
    case Node(l, x, _, r) => Items(l) + [x] + Items(r)
  }

  function Before<V>(c: Ctx<V>): seq<Item<V>> {
    match c
    case Top => []
    case InLeft(_, _, _, up) => Before(up)
    case InRight(l, x, _, up) => Before(up) + (Items(l) + [x])
  }

  function After<V>(c: Ctx<V>): seq<Item<V>> {
    match c
    case Top => []
    case InLeft(x, _, r, up) => ([x] + Items(r)) + After(up)
    case InRight(_, _, _, up) => After(up)
  }

  lemma {:induction false} PlugItems<V>(c: Ctx<V>, t: Tree<V>)
    ensures Items(Plug(c, t)) == Before(c) + Items(t) + After(c)
    decreases c
  {
    if c != Top {
      PlugItems(c.up, Fill(c, t));
      assert Before(c.up) + Items(Fill(c, t)) + After(c.up) == Before(c) + Items(t) + After(c);
    }
  }

  // ----- balance -----

  function Max(a: nat, b: nat): nat { if a < b then b else a }

  function Height<V>(t: Tree<V>): nat {
    match t
    case Leaf => 0
    case Node(l, _, _, r) => 1 + Max(Height(l), Height(r))
  }

  /** The balance factor says exactly which side is one deeper. */
  predicate Exact(b: Balance, left: nat, right: nat) {
    match b
    case AVLNew => false
    case AVLLeft => left == right + 1
    case AVLBalanced => left == right
    case AVLRight => right == left + 1
  }

  predicate Avl<V>(t: Tree<V>) {
    match t
    case Leaf => true
    case Node(l, _, b, r) => Avl(l) && Avl(r) && Exact(b, Height(l), Height(r))
  }

  /** `Plug(c, t)` is an AVL tree for every AVL tree `t` of height `h`. */
  predicate AvlCtx<V>(c: Ctx<V>, h: nat) {
    match c
    case Top => true
    case InLeft(_, b, r, up) =>
      Avl(r) && Exact(b, h, Height(r)) && AvlCtx(up, 1 + Max(h, Height(r)))
    case InRight(l, _, b, up) =>
      Avl(l) && Exact(b, Height(l), h) && AvlCtx(up, 1 + Max(Height(l), h))
  }

  lemma {:induction false} PlugAvl<V>(c: Ctx<V>, t: Tree<V>)
    ensures Avl(Plug(c, t)) <==> Avl(t) && AvlCtx(c, Height(t))
    decreases c
  {
    if c != Top {
      PlugAvl(c.up, Fill(c, t));
    }
  }

  /** Replacing the hole's subtree by one with the same items and a fitting height. */
  lemma {:induction false} PlugSame<V>(c: Ctx<V>, t: Tree<V>, u: Tree<V>)
    requires Items(t) == Items(u)
    ensures Items(Plug(c, u)) == Items(Plug(c, t))
    ensures Avl(u) && AvlCtx(c, Height(u)) ==> Avl(Plug(c, u))
  {
    PlugItems(c, t);
    PlugItems(c, u);
    PlugAvl(c, u);
  }

  // ----- rotations -----

  /** A subtree whose deep child is on `side`, ready for a single rotation. */
  predicate CanSingle<V>(t: Tree<V>, side: Balance) {
    t.Node? && (side == AVLRight || side == AVLLeft) &&
    (if side == AVLRight then t.right.Node? else t.left.Node?)
  }

  function SingleRotated<V>(t: Tree<V>, side: Balance): Tree<V>
    requires CanSingle(t, side)
  {
    if side == AVLRight then
      Node(Node(t.left, t.item, AVLBalanced, t.right.left), t.right.item, AVLBalanced, t.right.right)
    else
      Node(t.left.left, t.left.item, AVLBalanced, Node(t.left.right, t.item, AVLBalanced, t.right))
  }

  /** `SingleRotated` with the two balance factors that removal repairs afterwards. */
  function RepairedRotation<V>(t: Tree<V>, side: Balance): Tree<V>
    requires CanSingle(t, side)
  {
    var u := SingleRotated(t, side);
    if side == AVLRight then
      u.(bal := AVLLeft, left := u.left.(bal := AVLRight))
    else
      u.(bal := AVLRight, right := u.right.(bal := AVLLeft))
  }

  predicate CanDouble<V>(t: Tree<V>, side: Balance) {
    CanSingle(t, side) &&
    if side == AVLRight then t.right.left.Node? && t.right.left.bal != AVLNew
    else t.left.right.Node? && t.left.right.bal != AVLNew
  }

  /** The promoted grandchild's old factor decides the demoted parent's new one ... */
  function SelfBalance(grandchild: Balance, side: Balance): Balance {
    if grandchild == AVLLeft && side == AVLLeft then AVLRight
    else if grandchild == AVLRight && side == AVLRight then AVLLeft
    else AVLBalanced
  }

  /** ... and the child's. */
  function ChildBalance(grandchild: Balance, side: Balance): Balance {
    if grandchild == AVLLeft && side == AVLRight then AVLRight
    else if grandchild == AVLRight && side == AVLLeft then AVLLeft
    else AVLBalanced
  }

  function DoubleRotated<V>(t: Tree<V>, side: Balance): Tree<V>
    requires CanDouble(t, side)
  {
    if side == AVLRight then
      var g := t.right.left;
      Node(Node(t.left, t.item, SelfBalance(g.bal, side), g.left), g.item, AVLBalanced,
           Node(g.right, t.right.item, ChildBalance(g.bal, side), t.right.right))
    else
      var g := t.left.right;
      Node(Node(t.left.left, t.left.item, ChildBalance(g.bal, side), g.left), g.item, AVLBalanced,
           Node(g.right, t.item, SelfBalance(g.bal, side), t.right))
  }

  /** Re-associating `a x (b y c)` and `(a x b) y c` does not move an item. */
  lemma Reassociate<V>(a: Tree<V>, x: Item<V>, b: Tree<V>, y: Item<V>, c: Tree<V>, p: Balance, q: Balance, r: Balance,
                       s: Balance)
    ensures Items(Node(Node(a, x, p, b), y, q, c)) == Items(Node(a, x, r, Node(b, y, s, c)))
  {
    assert Items(Node(Node(a, x, p, b), y, q, c)) == (Items(a) + [x] + Items(b)) + [y] + Items(c);
    assert Items(Node(a, x, r, Node(b, y, s, c))) == Items(a) + [x] + (Items(b) + [y] + Items(c));
  }

  lemma {:induction false} SingleRotatedItems<V>(t: Tree<V>, side: Balance)
    requires CanSingle(t, side)
    ensures Items(SingleRotated(t, side)) == Items(t)
    ensures Items(RepairedRotation(t, side)) == Items(t)
  {
    if side == AVLRight {
      var y := t.right;
      Reassociate(t.left, t.item, y.left, y.item, y.right, AVLBalanced, AVLBalanced, t.bal, y.bal);
      Reassociate(t.left, t.item, y.left, y.item, y.right, AVLRight, AVLLeft, t.bal, y.bal);
    } else {
      var y := t.left;
      Reassociate(y.left, y.item, y.right, t.item, t.right, y.bal, t.bal, AVLBalanced, AVLBalanced);
      Reassociate(y.left, y.item, y.right, t.item, t.right, y.bal, t.bal, AVLRight, AVLLeft);
    }
  }

  /** A double rotation is the single rotation of the child followed by that of the node. */
  lemma {:induction false} DoubleRotatedItems<V>(t: Tree<V>, side: Balance)
    requires CanDouble(t, side)
    ensures Items(DoubleRotated(t, side)) == Items(t)
  {
    var u := DoubleRotated(t, side);
    if side == AVLRight {
      var y, g := t.right, t.right.left;
      Reassociate(g.left, g.item, g.right, y.item, y.right, g.bal, y.bal, AVLBalanced, u.right.bal);
      Reassociate(t.left, t.item, g.left, g.item, u.right, u.left.bal, AVLBalanced, t.bal, AVLBalanced);
    } else {
      var y, g := t.left, t.left.right;
      Reassociate(y.left, y.item, g.left, g.item, g.right, u.left.bal, AVLBalanced, y.bal, g.bal);
      Reassociate(u.left, g.item, g.right, t.item, t.right, AVLBalanced, t.bal, AVLBalanced, u.right.bal);
    }
  }

  /** The tilt of the deep child decides which rotation rebalances, and whether the height drops. */
  lemma {:induction false} RotationRight<V>(t: Tree<V>)
    requires t.Node? && Avl(t.left) && Avl(t.right) && Height(t.right) == Height(t.left) + 2
    ensures t.right.bal == AVLRight ==>
              Avl(SingleRotated(t, AVLRight)) && Height(SingleRotated(t, AVLRight)) + 1 == Height(t)
    ensures t.right.bal == AVLBalanced ==>
              Avl(RepairedRotation(t, AVLRight)) && Height(RepairedRotation(t, AVLRight)) == Height(t)
    ensures t.right.bal == AVLLeft ==>
              && CanDouble(t, AVLRight) && Avl(DoubleRotated(t, AVLRight))
              && Height(DoubleRotated(t, AVLRight)) + 1 == Height(t)
  {
    var y := t.right;
    if y.bal == AVLLeft {
      var g := y.left;
      assert Height(g) == Height(t.left) + 1 == Height(y.right) + 1;
    }
  }

  lemma {:induction false} RotationLeft<V>(t: Tree<V>)
    requires t.Node? && Avl(t.left) && Avl(t.right) && Height(t.left) == Height(t.right) + 2
    ensures t.left.bal == AVLLeft ==>
              Avl(SingleRotated(t, AVLLeft)) && Height(SingleRotated(t, AVLLeft)) + 1 == Height(t)
    ensures t.left.bal == AVLBalanced ==>
              Avl(RepairedRotation(t, AVLLeft)) && Height(RepairedRotation(t, AVLLeft)) == Height(t)
    ensures t.left.bal == AVLRight ==>
              && CanDouble(t, AVLLeft) && Avl(DoubleRotated(t, AVLLeft))
              && Height(DoubleRotated(t, AVLLeft)) + 1 == Height(t)
  {
    var y := t.left;
    if y.bal == AVLRight {
      var g := y.right;
      assert Height(g) == Height(t.right) + 1 == Height(y.left) + 1;
    }
  }

  // ----- insertion: rightAdded / leftAdded -----

  /** `t` is the hole's subtree after it got one deeper. */
  function Grow<V>(c: Ctx<V>, t: Tree<V>): Tree<V>
    decreases c
  {
    if c == Top then t
    else
      var f := Fill(c, t);
      if c.bal == Other(Side(c)) then Plug(c.up, FillAs(c, t, AVLBalanced))
      else if c.bal == AVLBalanced then Grow(c.up, FillAs(c, t, Side(c)))
      else Plug(c.up, GrownRotation(f, Side(c)))
  }

  /** The rotation that follows growth of the already deep `side`. */
  function GrownRotation<V>(t: Tree<V>, side: Balance): Tree<V> {
    if !CanSingle(t, side) then t
    else if (if side == AVLRight then t.right.bal else t.left.bal) == side then SingleRotated(t, side)
    else if CanDouble(t, side) then DoubleRotated(t, side)
    else t
  }

  /** What a subtree looks like right after it grew: tilted, or a brand-new leaf. */
  predicate Grown<V>(t: Tree<V>) {
    t.Node? && (t.bal == AVLBalanced ==> Height(t) == 1)
  }

  lemma {:induction false} GrownRotationOk<V>(t: Tree<V>, side: Balance)
    requires CanSingle(t, side)
    requires Avl(t.left) && Avl(t.right)
    requires side == AVLRight ==> Grown(t.right) && Height(t.right) == Height(t.left) + 2
    requires side == AVLLeft ==> Grown(t.left) && Height(t.left) == Height(t.right) + 2
    ensures (if side == AVLRight then t.right.bal else t.left.bal) == Other(side) ==> CanDouble(t, side)
    ensures (if side == AVLRight then t.right.bal else t.left.bal) in {side, Other(side)}
    ensures var u := GrownRotation(t, side);
            Avl(u) && Items(u) == Items(t) && Height(u) + 1 == Height(t)
  {
    SingleRotatedItems(t, side);
    if CanDouble(t, side) {
      DoubleRotatedItems(t, side);
    }
    if side == AVLRight {
      RotationRight(t);
    } else {
      RotationLeft(t);
    }
  }

  /** A step of the insertion walk where the parent was not deep on the grown side. */
  lemma {:induction false} GrowTilt<V>(c: Ctx<V>, t: Tree<V>)
    requires c != Top && c.bal != Side(c)
    requires Avl(t) && Grown(t) && AvlCtx(c, Height(t) - 1)
    ensures var u := FillAs(c, t, if c.bal == AVLBalanced then Side(c) else AVLBalanced);
            && Avl(u) && Items(u) == Items(Fill(c, t))
            && AvlCtx(c.up, if c.bal == AVLBalanced then Height(u) - 1 else Height(u))
  {
  }

  /** A step of the insertion walk that rotates. */
  lemma {:induction false} GrowTurn<V>(c: Ctx<V>, t: Tree<V>)
    requires c != Top && c.bal == Side(c)
    requires Avl(t) && Grown(t) && AvlCtx(c, Height(t) - 1)
    ensures var u := GrownRotation(Fill(c, t), Side(c));
            Avl(u) && Items(u) == Items(Fill(c, t)) && AvlCtx(c.up, Height(u))
  {
    var f := Fill(c, t);
    assert Height(f) == Height(t) + 1;
    GrownRotationOk(f, Side(c));
  }

  /** The insertion walk restores balance everywhere and moves no item. */
  lemma {:induction false} GrowOk<V>(c: Ctx<V>, t: Tree<V>)
    requires Avl(t) && Grown(t) && AvlCtx(c, Height(t) - 1)
    ensures Avl(Grow(c, t))
    ensures Items(Grow(c, t)) == Items(Plug(c, t))
    decreases c
  {
    if c != Top {
      var f := Fill(c, t);
      if c.bal == Other(Side(c)) {
        GrowTilt(c, t);
        PlugSame(c.up, f, FillAs(c, t, AVLBalanced));
      } else if c.bal == AVLBalanced {
        GrowTilt(c, t);
        GrowOk(c.up, FillAs(c, t, Side(c)));
        PlugSame(c.up, f, FillAs(c, t, Side(c)));
      } else {
        GrowTurn(c, t);
        PlugSame(c.up, f, GrownRotation(f, Side(c)));
      }
    }
  }

  // ----- removal: gotOneShorter -----

  /** What becomes of a node that lost height on `Other(heavy)`: the tree, and whether it too got shorter. */
  function ShrunkRotation<V>(f: Tree<V>, heavy: Balance): (r: (Tree<V>, bool)) {
    if !CanSingle(f, heavy) then (f, false)
    else
      var b := if heavy == AVLRight then f.right.bal else f.left.bal;
      if b == heavy then (SingleRotated(f, heavy), true)
      else if b == Other(heavy) then
        if CanDouble(f, heavy) then (DoubleRotated(f, heavy), true) else (f, false)
      else (RepairedRotation(f, heavy), false)
  }

  /** `t` is the hole's subtree after it got one shorter. */
  function Shrink<V>(c: Ctx<V>, t: Tree<V>): Tree<V>
    decreases c
  {
    if c == Top then t
    else
      var f := Fill(c, t);
      if c.bal == AVLBalanced then Plug(c.up, FillAs(c, t, Other(Side(c))))
      else if c.bal == Side(c) then Shrink(c.up, FillAs(c, t, AVLBalanced))
      else
        var (u, shorter) := ShrunkRotation(f, Other(Side(c)));
        if shorter then Shrink(c.up, u) else Plug(c.up, u)
  }

  lemma {:induction false} ShrunkRotationOk<V>(f: Tree<V>, heavy: Balance)
    requires f.Node? && (heavy == AVLLeft || heavy == AVLRight)
    requires Avl(f.left) && Avl(f.right)
    requires heavy == AVLRight ==> Height(f.right) == Height(f.left) + 2
    requires heavy == AVLLeft ==> Height(f.left) == Height(f.right) + 2
    ensures CanSingle(f, heavy)
    ensures (if heavy == AVLRight then f.right.bal else f.left.bal) == Other(heavy) ==> CanDouble(f, heavy)
    ensures var (u, shorter) := ShrunkRotation(f, heavy);
            Avl(u) && Items(u) == Items(f) && Height(f) == Height(u) + if shorter then 1 else 0
  {
    if heavy == AVLRight {
      RotationRight(f);
    } else {
      RotationLeft(f);
    }
    SingleRotatedItems(f, heavy);
    if CanDouble(f, heavy) {
      DoubleRotatedItems(f, heavy);
    }
  }

  /** A step of the removal walk that does not rotate. */
  lemma {:induction false} ShrinkTilt<V>(c: Ctx<V>, t: Tree<V>)
    requires c != Top && c.bal != Other(Side(c))
    requires Avl(t) && AvlCtx(c, Height(t) + 1)
    ensures var u := FillAs(c, t, if c.bal == AVLBalanced then Other(Side(c)) else AVLBalanced);
            && Avl(u) && Items(u) == Items(Fill(c, t))
            && AvlCtx(c.up, if c.bal == AVLBalanced then Height(u) else Height(u) + 1)
  {
  }

  /** A step of the removal walk that rotates. */
  lemma {:induction false} ShrinkTurn<V>(c: Ctx<V>, t: Tree<V>)
    requires c != Top && c.bal == Other(Side(c))
    requires Avl(t) && AvlCtx(c, Height(t) + 1)
    ensures var (u, shorter) := ShrunkRotation(Fill(c, t), Other(Side(c)));
            Avl(u) && Items(u) == Items(Fill(c, t)) && AvlCtx(c.up, if shorter then Height(u) + 1 else Height(u))
  {
    ShrunkRotationOk(Fill(c, t), Other(Side(c)));
  }

  /** The removal walk restores balance everywhere and moves no item. */
  lemma {:induction false} ShrinkOk<V>(c: Ctx<V>, t: Tree<V>)
    requires Avl(t) && AvlCtx(c, Height(t) + 1)
    ensures Avl(Shrink(c, t))
    ensures Items(Shrink(c, t)) == Items(Plug(c, t))
    decreases c
  {
    if c != Top {
      var f := Fill(c, t);
      if c.bal == AVLBalanced {
        ShrinkTilt(c, t);
        PlugSame(c.up, f, FillAs(c, t, Other(Side(c))));
      } else if c.bal == Side(c) {
        ShrinkTilt(c, t);
        ShrinkOk(c.up, FillAs(c, t, AVLBalanced));
        PlugSame(c.up, f, FillAs(c, t, AVLBalanced));
      } else {
        ShrinkTurn(c, t);
        var (u, shorter) := ShrunkRotation(f, Other(Side(c)));
        PlugSame(c.up, f, u);
        if shorter {
          ShrinkOk(c.up, u);
        }
      }
    }
  }
}
