/**
  The stackless walk of `check`: by the links alone it goes over the whole tree,
  comes back to the root and ends, and its comparisons of neighbours all hold.
 */
module AvlWalk {
  import opened AvlShape
  import opened AvlNodes
  import opened AvlSpec
  import opened AvlSearch

  /** Where the walk has come to a node from. */
  datatype From = Above | LeftChild | RightChild

  /** The focus of the walk: a subtree in its context, and where it was entered from. */
  datatype Focus<V> = Focus(c: Ctx<V>, t: Tree<V>, from: From)

  /** The nodes of the context still to be seen when its hole is done with. */
  ghost function Beyond<V>(c: Ctx<V>): set<Ptr> {
    match c
    case Top => {}
    case InLeft(_, _, r, up) => Ats(r) + Beyond(up)
    case InRight(_, _, _, up) => Beyond(up)
  }

  ghost function ToSee<V>(f: Focus<V>): set<Ptr>
    requires f.t.Node?
  {
    match f.from
    case Above => Ats(f.t) + Beyond(f.c)
    case LeftChild => Ats(f.t.right) + Beyond(f.c)
    case RightChild => Beyond(f.c)
  }

  /** Steps to go over a subtree, from the one that enters it to the one that leaves it. */
  ghost function Round<V>(t: Tree<V>): nat {
    if t.Leaf? then 0 else Round(t.left) + Round(t.right) + 2
  }

  ghost function RoundCtx<V>(c: Ctx<V>): nat {
    match c
    case Top => 0
    case InLeft(_, _, r, up) => Round(r) + 1 + RoundCtx(up)
    case InRight(_, _, _, up) => 1 + RoundCtx(up)
  }

  ghost function ToGo<V>(f: Focus<V>): nat
    requires f.t.Node?
  {
    match f.from
    case Above => Round(f.t) - 1 + RoundCtx(f.c)
    case LeftChild => Round(f.t.right) + 1 + RoundCtx(f.c)
    case RightChild => 1 + RoundCtx(f.c)
  }

  /** The walk stands at the focus, having been at `old` before. */
  ghost predicate Stands<V>(s: Store<V>, shape: Tree<V>, f: Focus<V>, curr: Ptr, old': Ptr) {
    var stands :=
      && f.t.Node? && curr == Root(f.t) && Holds(s, f.c, f.t) && Plug(f.c, f.t) == shape
      && (match f.from
          case Above => old' == At(f.c)
          case LeftChild => f.t.left.Node? && old' == Root(f.t.left)
          case RightChild => f.t.right.Node? && old' == Root(f.t.right));
    stands
  }

  /** What the links and the last node tell the walk. */
  lemma Links<V>(s: Store<V>, shape: Tree<V>, f: Focus<V>, curr: Ptr, old': Ptr)
    requires Stands(s, shape, f, curr, old')
    ensures curr != 0 && curr in s && s[curr].parent == At(f.c)
    ensures s[curr].left == Root(f.t.left) && (s[curr].left != 0 <==> f.t.left.Node?)
    ensures s[curr].right == Root(f.t.right) && (s[curr].right != 0 <==> f.t.right.Node?)
    ensures s[curr].left != 0 ==> s[curr].left in s && s[s[curr].left].key == f.t.left.item.key
    ensures s[curr].right != 0 ==> s[curr].right in s && s[s[curr].right].key == f.t.right.item.key
    ensures s[curr].key == f.t.item.key
    ensures s[curr].left != 0 && old' == s[curr].parent <==> f.t.left.Node? && f.from == Above
    ensures old' == s[curr].left || old' == s[curr].parent ==> f.from != RightChild
    ensures f.from == LeftChild ==> old' == s[curr].left
    ensures f.from == Above ==> old' == s[curr].parent
  {
    var t := f.t;
    assert Rep(s, t.left, t.item.at) && Rep(s, t.right, t.item.at);
    assert t.left.Node? ==> Root(t.left) in Ats(t.left);
    assert t.right.Node? ==> Root(t.right) in Ats(t.right);
    assert f.c != Top ==> At(f.c) in CtxAts(f.c);
  }

  /** Keys are in order at every node of an ordered tree. */
  lemma FocusOrdered<V>(c: Ctx<V>, t: Tree<V>)
    requires Sorted(Items(Plug(c, t)))
    ensures ChildOrdered(t)
  {
    PlugItems(c, t);
    SortedInfix(Before(c), Items(t), After(c));
    SortedChildOrdered(t);
  }

  lemma SortedInfix<V>(a: seq<Item<V>>, b: seq<Item<V>>, c: seq<Item<V>>)
    requires Sorted(a + b + c)
    ensures Sorted(b)
  {
    var xs := a + b + c;
    forall i, j | 0 <= i < j < |b|
      ensures b[i].key < b[j].key
    {
      assert b[i] == xs[|a| + i] && b[j] == xs[|a| + j];
    }
  }

  ghost function DownLeft<V>(f: Focus<V>): Focus<V>
    requires f.t.Node?
  {
    Focus(InLeft(f.t.item, f.t.bal, f.t.right, f.c), f.t.left, Above)
  }

  ghost function DownRight<V>(f: Focus<V>): Focus<V>
    requires f.t.Node?
  {
    Focus(InRight(f.t.left, f.t.item, f.t.bal, f.c), f.t.right, Above)
  }

  ghost function Up<V>(f: Focus<V>): Focus<V>
    requires f.c != Top
  {
    Focus(f.c.up, Fill(f.c, f.t), if f.c.InLeft? then LeftChild else RightChild)
  }

  lemma GoneLeft<V>(s: Store<V>, shape: Tree<V>, f: Focus<V>, curr: Ptr, old': Ptr)
    requires Stands(s, shape, f, curr, old') && f.t.left.Node? && f.from == Above
    ensures Stands(s, shape, DownLeft(f), Root(f.t.left), curr)
    ensures ToSee(f) == {curr} + ToSee(DownLeft(f)) && ToGo(DownLeft(f)) < ToGo(f)
  {
    HoldsFill(s, DownLeft(f).c, f.t.left);
  }

  lemma GoneRight<V>(s: Store<V>, shape: Tree<V>, f: Focus<V>, curr: Ptr, old': Ptr)
    requires Stands(s, shape, f, curr, old') && f.t.right.Node?
    requires f.from == LeftChild || (f.from == Above && f.t.left.Leaf?)
    ensures Stands(s, shape, DownRight(f), Root(f.t.right), curr)
    ensures ToSee(f) == (if f.from == Above then {curr} else {}) + ToSee(DownRight(f))
    ensures ToGo(DownRight(f)) < ToGo(f)
  {
    HoldsFill(s, DownRight(f).c, f.t.right);
  }

  lemma GoneUp<V>(s: Store<V>, shape: Tree<V>, f: Focus<V>, curr: Ptr, old': Ptr)
    requires Stands(s, shape, f, curr, old')
    requires f.from == RightChild || (f.t.right.Leaf? && (f.from == LeftChild || f.t.left.Leaf?))
    ensures f.c == Top ==> ToSee(f) == if f.from == Above then {curr} else {}
    ensures f.c != Top ==>
      && Stands(s, shape, Up(f), At(f.c), curr)
      && ToSee(f) == (if f.from == Above then {curr} else {}) + ToSee(Up(f)) && ToGo(Up(f)) < ToGo(f)
  {
    if f.c != Top {
      HoldsFill(s, f.c, f.t);
    }
  }

  /** One turn of the loop: where to go next, and whether the keys on the way are in order. */
  method Advance<V>(s: Store<V>, curr: Ptr, old': Ptr, ghost shape: Tree<V>, ghost f: Focus<V>)
    returns (next: Ptr, ok: bool, ghost f': Focus<V>)
    requires Stands(s, shape, f, curr, old') && ChildOrdered(f.t)
    ensures ok && (next != 0 ==> Stands(s, shape, f', next, curr) && ToGo(f') < ToGo(f))
    ensures ToSee(f) == (if f.from == Above then {curr} else {}) + if next != 0 then ToSee(f') else {}
  {
    Links(s, shape, f, curr, old');
    if s[curr].left != 0 && old' == s[curr].parent {
      next := s[curr].left;
      ok := s[next].key < s[curr].key;
      GoneLeft(s, shape, f, curr, old');
      f' := DownLeft(f);
    } else if s[curr].right != 0 && (old' == s[curr].left || old' == s[curr].parent) {
      next := s[curr].right;
      ok := s[next].key > s[curr].key;
      GoneRight(s, shape, f, curr, old');
      f' := DownRight(f);
    } else {
      next := s[curr].parent;
      ok := true;
      GoneUp(s, shape, f, curr, old');
      f' := if f.c == Top then f else Up(f);
      ParentLink(s, f);
    }
  }

  lemma ParentLink<V>(s: Store<V>, f: Focus<V>)
    requires Holds(s, f.c, f.t)
    ensures At(f.c) == 0 <==> f.c == Top
  {}

  /** The walk sees every node, and its assertions on the keys it passes all hold. */
  method Walk<V>(s: Store<V>, tree: Ptr, ghost shape: Tree<V>) returns (ok: bool, ghost seen: set<Ptr>)
    requires Holds(s, Top, shape) && tree == Root(shape) && Sorted(Items(shape))
    ensures ok && seen == Ats(shape)
  {
    ok, seen := true, {};
    var curr, old' := tree, 0;
    ghost var f := Focus(Top, shape, Above);
    while curr != 0
      invariant ok && (curr != 0 ==> Stands(s, shape, f, curr, old'))
      invariant seen + (if curr != 0 then ToSee(f) else {}) == Ats(shape)
      decreases curr != 0, if curr != 0 then ToGo(f) else 0
    {
      FocusOrdered(f.c, f.t);
      seen := seen + if f.from == Above then {curr} else {};
      var next, inOrder;
      next, inOrder, f := Advance(s, curr, old', shape, f);
      ok := ok && inOrder;
      old' := curr;
      curr := next;
    }
  }
}
