/**
  The node store behind the tree: every node is a cell with left, right and
  parent links, a balance factor and its element. `Holds` says that the store
  is the linked image of a tree value seen through a context; the lemmas say
  which cell updates move a subtree or a context.
 */
module AvlNodes {
  import opened AvlShape

  datatype Cell<V> = Cell(left: Ptr, right: Ptr, parent: Ptr, bal: Balance, key: int, value: V)

  type Store<V> = map<Ptr, Cell<V>>

  // ----- the node accessors -----

  function SetLeft<V>(s: Store<V>, p: Ptr, q: Ptr): Store<V>
    requires p in s
  {
    s[p := s[p].(left := q)]
  }

  function SetRight<V>(s: Store<V>, p: Ptr, q: Ptr): Store<V>
    requires p in s
  {
    s[p := s[p].(right := q)]
  }

  function SetParent<V>(s: Store<V>, p: Ptr, q: Ptr): Store<V>
    requires p in s
  {
    s[p := s[p].(parent := q)]
  }

  function SetBalance<V>(s: Store<V>, p: Ptr, b: Balance): Store<V>
    requires p in s
  {
    s[p := s[p].(bal := b)]
  }

  // ----- trees in the store -----

  function Root<V>(t: Tree<V>): Ptr {
    if t.Leaf? then 0 else t.item.at
  }

  /** The node that owns the hole; NULL at the top. */
  function At<V>(c: Ctx<V>): Ptr {
    if c == Top then 0 else c.item.at
  }

  /** The tree's root link when the hole holds `hole`. */
  function RootOf<V>(c: Ctx<V>, hole: Ptr): Ptr
    decreases c
  {
    if c == Top then hole else RootOf(c.up, c.item.at)
  }

  lemma {:induction false} RootOfPlug<V>(c: Ctx<V>, t: Tree<V>)
    ensures Root(Plug(c, t)) == RootOf(c, Root(t))
    decreases c
  {
    if c != Top {
      RootOfPlug(c.up, Fill(c, t));
    }
  }

  function Ats<V>(t: Tree<V>): set<Ptr> {
    if t.Leaf? then {} else Ats(t.left) + {t.item.at} + Ats(t.right)
  }

  function CtxAts<V>(c: Ctx<V>): set<Ptr> {
    match c
    case Top => {}
    case InLeft(x, _, r, up) => {x.at} + Ats(r) + CtxAts(up)
    case InRight(l, x, _, up) => {x.at} + Ats(l) + CtxAts(up)
  }

  predicate Distinct<V>(t: Tree<V>) {
    t.Node? ==>
      && Distinct(t.left) && Distinct(t.right)
      && t.item.at !in Ats(t.left) && t.item.at !in Ats(t.right) && Ats(t.left) !! Ats(t.right)
  }

  predicate DistinctCtx<V>(c: Ctx<V>) {
    c != Top ==>
      var sib := if c.InLeft? then c.right else c.left;
      && Distinct(sib) && DistinctCtx(c.up)
      && c.item.at !in Ats(sib) && c.item.at !in CtxAts(c.up) && Ats(sib) !! CtxAts(c.up)
  }

  predicate Apart<V>(c: Ctx<V>, t: Tree<V>) {
    Distinct(t) && DistinctCtx(c) && Ats(t) !! CtxAts(c) && 0 !in Ats(t) + CtxAts(c)
  }

  /** The store holds `t`, linked below `parent`. */
  ghost predicate Rep<V>(s: Store<V>, t: Tree<V>, parent: Ptr)
    decreases t
  {
    t.Node? ==>
      var p := t.item.at;
      && p != 0 && p in s
      && s[p] == Cell(Root(t.left), Root(t.right), parent, t.bal, t.item.key, t.item.value)
      && Rep(s, t.left, p) && Rep(s, t.right, p)
  }

  /** The store holds everything around the hole, and the hole is linked to `hole`. */
  ghost predicate RepCtx<V>(s: Store<V>, c: Ctx<V>, hole: Ptr)
    decreases c
  {
    match c
    case Top => true
    case InLeft(x, b, r, up) =>
      && x.at != 0 && x.at in s
      && s[x.at] == Cell(hole, Root(r), At(up), b, x.key, x.value)
      && Rep(s, r, x.at) && RepCtx(s, up, x.at)
    case InRight(l, x, b, up) =>
      && x.at != 0 && x.at in s
      && s[x.at] == Cell(Root(l), hole, At(up), b, x.key, x.value)
      && Rep(s, l, x.at) && RepCtx(s, up, x.at)
  }

  /** The store is the linked image of `Plug(c, t)`. */
  ghost predicate Holds<V>(s: Store<V>, c: Ctx<V>, t: Tree<V>) {
    Apart(c, t) && Rep(s, t, At(c)) && RepCtx(s, c, Root(t))
  }

  lemma {:induction false} HoldsPlug<V>(s: Store<V>, c: Ctx<V>, t: Tree<V>)
    ensures Holds(s, c, t) <==> Holds(s, Top, Plug(c, t))
    ensures Ats(Plug(c, t)) == Ats(t) + CtxAts(c)
    decreases c
  {
    if c != Top {
      HoldsPlug(s, c.up, Fill(c, t));
    }
  }

  /** Moving the focus between the hole and the node around it. */
  lemma {:induction false} HoldsFill<V>(s: Store<V>, c: Ctx<V>, t: Tree<V>)
    requires c != Top
    ensures Holds(s, c, t) <==> Holds(s, c.up, Fill(c, t))
  {}

  /** Every cell outside `ps` is kept. */
  ghost predicate Keeps<V>(s: Store<V>, s': Store<V>, ps: set<Ptr>) {
    forall p :: p in s && p !in ps ==> p in s' && s'[p] == s[p]
  }

  lemma {:induction false} RepKept<V>(s: Store<V>, s': Store<V>, t: Tree<V>, parent: Ptr, ps: set<Ptr>)
    requires Rep(s, t, parent) && Keeps(s, s', ps) && Ats(t) !! ps
    ensures Rep(s', t, parent)
    decreases t
  {
    if t.Node? {
      RepKept(s, s', t.left, t.item.at, ps);
      RepKept(s, s', t.right, t.item.at, ps);
    }
  }

  lemma {:induction false} CtxKept<V>(s: Store<V>, s': Store<V>, c: Ctx<V>, hole: Ptr, ps: set<Ptr>)
    requires RepCtx(s, c, hole) && Keeps(s, s', ps) && CtxAts(c) !! ps
    ensures RepCtx(s', c, hole)
    decreases c
  {
    if c != Top {
      RepKept(s, s', if c.InLeft? then c.right else c.left, c.item.at, ps);
      CtxKept(s, s', c.up, c.item.at, ps);
    }
  }

  ghost predicate Reparented<V>(s: Store<V>, s': Store<V>, p: Ptr, parent: Ptr) {
    p in s && p in s' && s'[p] == s[p].(parent := parent)
  }

  /** The parent's cell once the hole's link is overwritten. */
  function Linked<V>(c: Ctx<V>, cell: Cell<V>, hole: Ptr): Cell<V> {
    if c.InLeft? then cell.(left := hole) else cell.(right := hole)
  }

  ghost predicate Relinked<V>(s: Store<V>, s': Store<V>, c: Ctx<V>, hole: Ptr) {
    At(c) in s && At(c) in s' && s'[At(c)] == Linked(c, s[At(c)], hole)
  }

  /** A subtree is moved below another parent by rewriting its root's parent link. */
  lemma {:induction false} RepMoved<V>(s: Store<V>, s': Store<V>, t: Tree<V>, parent: Ptr, parent': Ptr, ps: set<Ptr>)
    requires Rep(s, t, parent) && Distinct(t)
    requires Keeps(s, s', ps + {Root(t)}) && Ats(t) !! ps
    requires t.Node? ==> Reparented(s, s', Root(t), parent')
    ensures Rep(s', t, parent')
  {
    if t.Node? {
      RepKept(s, s', t.left, t.item.at, ps + {Root(t)});
      RepKept(s, s', t.right, t.item.at, ps + {Root(t)});
    }
  }

  /** A context takes another subtree by rewriting the hole's link. */
  lemma {:induction false} CtxMoved<V>(s: Store<V>, s': Store<V>, c: Ctx<V>, hole: Ptr, hole': Ptr, ps: set<Ptr>)
    requires RepCtx(s, c, hole) && DistinctCtx(c)
    requires Keeps(s, s', ps + {At(c)}) && CtxAts(c) !! ps
    requires c != Top ==> Relinked(s, s', c, hole')
    ensures RepCtx(s', c, hole')
  {
    if c != Top {
      RepKept(s, s', if c.InLeft? then c.right else c.left, c.item.at, ps + {At(c)});
      CtxKept(s, s', c.up, c.item.at, ps + {At(c)});
    }
  }

  /** The parent's left link tells on which side the hole hangs. */
  lemma HoleSide<V>(s: Store<V>, c: Ctx<V>, t: Tree<V>)
    requires Holds(s, c, t) && t.Node? && c != Top
    ensures At(c) in s && At(c) != 0 && At(c) != Root(t)
    ensures s[At(c)].left == Root(t) <==> c.InLeft?
    ensures s[At(c)].right == Root(t) <==> c.InRight?
  {}

  lemma RootIn<V>(t: Tree<V>)
    ensures t.Node? ==> Root(t) in Ats(t)
  {}

  lemma RootHeld<V>(s: Store<V>, t: Tree<V>, parent: Ptr)
    requires Rep(s, t, parent)
    ensures t.Node? ==> Root(t) in s && Root(t) in Ats(t) && Root(t) != 0
  {}

  /** A node with two children, its children and its parent are four cells. */
  lemma NodeApart<V>(s: Store<V>, c: Ctx<V>, l: Tree<V>, x: Item<V>, b: Balance, r: Tree<V>)
    requires Holds(s, c, Node(l, x, b, r)) && l.Node? && r.Node?
    ensures {x.at, Root(l), Root(r)} <= s.Keys
    ensures s[x.at] == Cell(Root(l), Root(r), At(c), b, x.key, x.value)
    ensures Root(l) != Root(r) && x.at != Root(l) && x.at != Root(r) && At(c) !in {x.at, Root(l), Root(r)}
    ensures Root(l) in Ats(l) && Root(r) in Ats(r) && (c != Top ==> At(c) in CtxAts(c))
  {
    var t := Node(l, x, b, r);
    assert Apart(c, t) && Rep(s, t, At(c));
    RootHeld(s, l, x.at);
    RootHeld(s, r, x.at);
    AtIn(c);
  }

  /** Overwriting a balance factor, seen from the node's own parent. */
  lemma {:induction false} Rebalanced<V>(s: Store<V>, c: Ctx<V>, t: Tree<V>, b: Balance)
    requires Holds(s, c, t) && c != Top
    ensures At(c) in s && Holds(SetBalance(s, At(c), b), c.up, FillAs(c, t, b))
  {
    var s' := SetBalance(s, At(c), b);
    var sib := if c.InLeft? then c.right else c.left;
    RepKept(s, s', t, At(c), {At(c)});
    RepKept(s, s', sib, At(c), {At(c)});
    CtxKept(s, s', c.up, At(c), {At(c)});
  }

  /** A cell outside the tree does not matter. */
  lemma {:induction false} HoldsKept<V>(s: Store<V>, s': Store<V>, c: Ctx<V>, t: Tree<V>, p: Ptr)
    requires Holds(s, c, t) && Keeps(s, s', {p}) && p !in Ats(t) + CtxAts(c)
    ensures Holds(s', c, t)
  {
    RepKept(s, s', t, At(c), {p});
    CtxKept(s, s', c, Root(t), {p});
  }

  /** A new node is hung into an empty hole. */
  lemma {:induction false} Hung<V>(s: Store<V>, s': Store<V>, c: Ctx<V>, x: Item<V>)
    requires Holds(s, c, Leaf) && x.at != 0 && x.at !in CtxAts(c)
    requires x.at in s' && s'[x.at] == Cell(0, 0, At(c), AVLBalanced, x.key, x.value)
    requires c != Top ==> Relinked(s, s', c, x.at)
    requires Keeps(s, s', {x.at, At(c)})
    ensures Holds(s', c, Node(Leaf, x, AVLBalanced, Leaf))
  {
    AtIn(c);
    CtxMoved(s, s', c, 0, x.at, {x.at});
    assert Ats(Node(Leaf, x, AVLBalanced, Leaf)) == {x.at};
  }

  /** A subtree `u` of `t` takes the place of `t`. */
  lemma {:induction false} Spliced<V>(s: Store<V>, s': Store<V>, c: Ctx<V>, t: Tree<V>, u: Tree<V>)
    requires Holds(s, c, t) && t.Node? && (u == t.left || u == t.right)
    requires u.Node? ==> Reparented(s, s', Root(u), At(c))
    requires c != Top ==> Relinked(s, s', c, Root(u))
    requires Keeps(s, s', {Root(u), At(c)})
    ensures Holds(s', c, u)
  {
    AtIn(c);
    RootIn(u);
    RepMoved(s, s', u, Root(t), At(c), {At(c)});
    CtxMoved(s, s', c, Root(t), Root(u), {Root(u)});
  }

  /** Node `y` takes over the place, links and balance factor of node `x`. */
  lemma {:induction false} Replaced<V>(s: Store<V>, s': Store<V>, c: Ctx<V>, l: Tree<V>, x: Item<V>, b: Balance,
                                       r: Tree<V>, y: Item<V>)
    requires Holds(s, c, Node(l, x, b, r))
    requires y.at != 0 && y.at !in Ats(l) + Ats(r) + CtxAts(c) + {x.at}
    requires y.at in s' && s'[y.at] == Cell(Root(l), Root(r), At(c), b, y.key, y.value)
    requires l.Node? ==> Reparented(s, s', Root(l), y.at)
    requires r.Node? ==> Reparented(s, s', Root(r), y.at)
    requires c != Top ==> Relinked(s, s', c, y.at)
    requires Keeps(s, s', {y.at, Root(l), Root(r), At(c)})
    ensures Holds(s', c, Node(l, y, b, r))
  {
    AtIn(c);
    RootIn(l);
    RootIn(r);
    RepMoved(s, s', l, x.at, y.at, {y.at, Root(r), At(c)});
    RepMoved(s, s', r, x.at, y.at, {y.at, Root(l), At(c)});
    CtxMoved(s, s', c, x.at, y.at, {y.at, Root(l), Root(r)});
  }

  /** As `Replaced`, where `y` is the right child of `x` and has no left child. */
  lemma {:induction false} Adopted<V>(s: Store<V>, s': Store<V>, c: Ctx<V>, l: Tree<V>, x: Item<V>, b: Balance,
                                      y: Item<V>, d: Balance, r: Tree<V>)
    requires Holds(s, c, Node(l, x, b, Node(Leaf, y, d, r)))
    requires y.at in s' && s'[y.at] == Cell(Root(l), Root(r), At(c), b, y.key, y.value)
    requires l.Node? ==> Reparented(s, s', Root(l), y.at)
    requires c != Top ==> Relinked(s, s', c, y.at)
    requires Keeps(s, s', {y.at, Root(l), At(c)})
    ensures Holds(s', c, Node(l, y, b, r))
  {
    AtIn(c);
    RootIn(l);
    var n := Node(Leaf, y, d, r);
    assert Rep(s, n, x.at) && Distinct(n) && Ats(n) == {y.at} + Ats(r);
    RepMoved(s, s', l, x.at, y.at, {y.at, At(c)});
    RepKept(s, s', r, y.at, {y.at, Root(l), At(c)});
    CtxMoved(s, s', c, x.at, y.at, {y.at, Root(l)});
  }

  lemma {:induction false} AtIn<V>(c: Ctx<V>)
    ensures c != Top ==> At(c) in CtxAts(c)
  {}

  // ----- rotations on the store -----

  lemma {:induction false} ApartSingleRight<V>(c: Ctx<V>, x: Item<V>, b: Balance, y: Item<V>, d: Balance, l: Tree<V>,
                                               m: Tree<V>, r: Tree<V>)
    requires Apart(c, Node(l, x, b, Node(m, y, d, r)))
    ensures Apart(c, Node(Node(l, x, AVLBalanced, m), y, AVLBalanced, r))
    ensures x.at != y.at && Distinct(m)
    ensures Ats(l) !! {x.at, y.at, 0} + Ats(m) + CtxAts(c)
    ensures Ats(m) !! {x.at, y.at, 0} + CtxAts(c)
    ensures Ats(r) !! {x.at, y.at, 0} + Ats(m) + CtxAts(c)
    ensures CtxAts(c) !! {x.at, y.at, 0}
  {
    var n, u := Node(m, y, d, r), Node(l, x, AVLBalanced, m);
    assert Distinct(n) && Ats(n) == Ats(m) + {y.at} + Ats(r) && Ats(u) == Ats(l) + {x.at} + Ats(m);
  }

  /** Rewriting the four cells of a single rotation, deep side right. */
  lemma {:induction false} SingleRight<V>(s: Store<V>, s': Store<V>, c: Ctx<V>, x: Item<V>, b: Balance, y: Item<V>,
                                          d: Balance, l: Tree<V>, m: Tree<V>, r: Tree<V>)
    requires Holds(s, c, Node(l, x, b, Node(m, y, d, r)))
    requires {x.at, y.at} <= s'.Keys
    requires s'[x.at] == Cell(Root(l), Root(m), y.at, AVLBalanced, x.key, x.value)
    requires s'[y.at] == Cell(x.at, Root(r), At(c), AVLBalanced, y.key, y.value)
    requires m.Node? ==> Reparented(s, s', Root(m), x.at)
    requires c != Top ==> Relinked(s, s', c, y.at)
    requires Keeps(s, s', {x.at, y.at, Root(m), At(c)})
    ensures Holds(s', c, Node(Node(l, x, AVLBalanced, m), y, AVLBalanced, r))
  {
    ApartSingleRight(c, x, b, y, d, l, m, r);
    RootIn(m);
    AtIn(c);
    assert Rep(s, Node(m, y, d, r), x.at);
    var ps := {x.at, y.at, Root(m), At(c)};
    RepKept(s, s', l, x.at, ps);
    RepKept(s, s', r, y.at, ps);
    RepMoved(s, s', m, y.at, x.at, {x.at, y.at, At(c)});
    CtxMoved(s, s', c, x.at, y.at, {x.at, y.at, Root(m)});
  }

  lemma {:induction false} ApartSingleLeft<V>(c: Ctx<V>, x: Item<V>, b: Balance, y: Item<V>, d: Balance, l: Tree<V>,
                                              m: Tree<V>, r: Tree<V>)
    requires Apart(c, Node(Node(l, y, d, m), x, b, r))
    ensures Apart(c, Node(l, y, AVLBalanced, Node(m, x, AVLBalanced, r)))
    ensures x.at != y.at && Distinct(m)
    ensures Ats(l) !! {x.at, y.at, 0} + Ats(m) + CtxAts(c)
    ensures Ats(m) !! {x.at, y.at, 0} + CtxAts(c)
    ensures Ats(r) !! {x.at, y.at, 0} + Ats(m) + CtxAts(c)
    ensures CtxAts(c) !! {x.at, y.at, 0}
  {
    var n, u := Node(l, y, d, m), Node(m, x, AVLBalanced, r);
    assert Distinct(n) && Ats(n) == Ats(l) + {y.at} + Ats(m) && Ats(u) == Ats(m) + {x.at} + Ats(r);
  }

  /** Rewriting the four cells of a single rotation, deep side left. */
  lemma {:induction false} SingleLeft<V>(s: Store<V>, s': Store<V>, c: Ctx<V>, x: Item<V>, b: Balance, y: Item<V>,
                                         d: Balance, l: Tree<V>, m: Tree<V>, r: Tree<V>)
    requires Holds(s, c, Node(Node(l, y, d, m), x, b, r))
    requires {x.at, y.at} <= s'.Keys
    requires s'[x.at] == Cell(Root(m), Root(r), y.at, AVLBalanced, x.key, x.value)
    requires s'[y.at] == Cell(Root(l), x.at, At(c), AVLBalanced, y.key, y.value)
    requires m.Node? ==> Reparented(s, s', Root(m), x.at)
    requires c != Top ==> Relinked(s, s', c, y.at)
    requires Keeps(s, s', {x.at, y.at, Root(m), At(c)})
    ensures Holds(s', c, Node(l, y, AVLBalanced, Node(m, x, AVLBalanced, r)))
  {
    ApartSingleLeft(c, x, b, y, d, l, m, r);
    RootIn(m);
    AtIn(c);
    assert Rep(s, Node(l, y, d, m), x.at);
    var ps := {x.at, y.at, Root(m), At(c)};
    RepKept(s, s', l, y.at, ps);
    RepKept(s, s', r, x.at, ps);
    RepMoved(s, s', m, y.at, x.at, {x.at, y.at, At(c)});
    CtxMoved(s, s', c, x.at, y.at, {x.at, y.at, Root(m)});
  }

  /** The seven pieces a double rotation rearranges, left to right, do not share an address. */
  ghost predicate Seven<V>(c: Ctx<V>, l: Tree<V>, p: Ptr, m: Tree<V>, y: Ptr, n: Tree<V>, q: Ptr, r: Tree<V>) {
    var seven :=
      && Distinct(l) && Distinct(m) && Distinct(n) && Distinct(r) && DistinctCtx(c)
      && p != y && p != q && y != q && 0 !in {p, y, q} + CtxAts(c)
      && Ats(l) !! {p, y, q, 0} + Ats(m) + Ats(n) + Ats(r) + CtxAts(c)
      && Ats(m) !! {p, y, q, 0} + Ats(n) + Ats(r) + CtxAts(c)
      && Ats(n) !! {p, y, q, 0} + Ats(r) + CtxAts(c)
      && Ats(r) !! {p, y, q, 0} + CtxAts(c)
      && CtxAts(c) !! {p, y, q};
    seven
  }

  lemma {:induction false} SevenApart<V>(c: Ctx<V>, u: Tree<V>, y: Item<V>, v: Tree<V>)
    requires u.Node? && v.Node? && Seven(c, u.left, u.item.at, u.right, y.at, v.left, v.item.at, v.right)
    ensures Apart(c, Node(u, y, AVLBalanced, v))
  {
    assert Ats(u) == Ats(u.left) + {u.item.at} + Ats(u.right) && Distinct(u);
    assert Ats(v) == Ats(v.left) + {v.item.at} + Ats(v.right) && Distinct(v);
  }

  lemma {:induction false} ApartDoubleRight<V>(c: Ctx<V>, x: Item<V>, b: Balance, z: Item<V>, d: Balance, y: Item<V>,
                                               e: Balance, bx: Balance, bz: Balance,
                                               l: Tree<V>, m: Tree<V>, n: Tree<V>, r: Tree<V>)
    requires Apart(c, Node(l, x, b, Node(Node(m, y, e, n), z, d, r)))
    ensures Apart(c, Node(Node(l, x, bx, m), y, AVLBalanced, Node(n, z, bz, r)))
    ensures x.at != y.at && x.at != z.at && y.at != z.at && Distinct(m) && Distinct(n)
    ensures Ats(l) !! {x.at, y.at, z.at, 0} + Ats(m) + Ats(n) + CtxAts(c)
    ensures Ats(m) !! {x.at, y.at, z.at, 0} + Ats(n) + CtxAts(c)
    ensures Ats(n) !! {x.at, y.at, z.at, 0} + CtxAts(c)
    ensures Ats(r) !! {x.at, y.at, z.at, 0} + Ats(m) + Ats(n) + CtxAts(c)
    ensures CtxAts(c) !! {x.at, y.at, z.at, 0}
  {
    SevenRight(c, Node(l, x, b, Node(Node(m, y, e, n), z, d, r)));
    SevenApart(c, Node(l, x, bx, m), y, Node(n, z, bz, r));
  }

  lemma {:induction false} SevenRight<V>(c: Ctx<V>, t: Tree<V>)
    requires Apart(c, t) && t.Node? && t.right.Node? && t.right.left.Node?
    ensures var z, y := t.right, t.right.left;
            Seven(c, t.left, t.item.at, y.left, y.item.at, y.right, z.item.at, z.right)
  {
    var z, y := t.right, t.right.left;
    assert Distinct(z) && Ats(z) == Ats(y) + {z.item.at} + Ats(z.right);
    assert Distinct(y) && Ats(y) == Ats(y.left) + {y.item.at} + Ats(y.right);
  }

  /** Rewriting the six cells of a double rotation, deep side right. */
  lemma {:induction false} DoubleRight<V>(s: Store<V>, s': Store<V>, c: Ctx<V>, x: Item<V>, b: Balance, z: Item<V>,
                                          d: Balance, y: Item<V>, e: Balance, bx: Balance, bz: Balance,
                                          l: Tree<V>, m: Tree<V>, n: Tree<V>, r: Tree<V>)
    requires Holds(s, c, Node(l, x, b, Node(Node(m, y, e, n), z, d, r)))
    requires {x.at, y.at, z.at} <= s'.Keys
    requires s'[x.at] == Cell(Root(l), Root(m), y.at, bx, x.key, x.value)
    requires s'[z.at] == Cell(Root(n), Root(r), y.at, bz, z.key, z.value)
    requires s'[y.at] == Cell(x.at, z.at, At(c), AVLBalanced, y.key, y.value)
    requires m.Node? ==> Reparented(s, s', Root(m), x.at)
    requires n.Node? ==> Reparented(s, s', Root(n), z.at)
    requires c != Top ==> Relinked(s, s', c, y.at)
    requires Keeps(s, s', {x.at, y.at, z.at, Root(m), Root(n), At(c)})
    ensures Holds(s', c, Node(Node(l, x, bx, m), y, AVLBalanced, Node(n, z, bz, r)))
  {
    ApartDoubleRight(c, x, b, z, d, y, e, bx, bz, l, m, n, r);
    RootIn(m);
    RootIn(n);
    AtIn(c);
    assert Rep(s, Node(Node(m, y, e, n), z, d, r), x.at) && Rep(s, Node(m, y, e, n), z.at);
    var ps := {x.at, y.at, z.at, Root(m), Root(n), At(c)};
    RepKept(s, s', l, x.at, ps);
    RepKept(s, s', r, z.at, ps);
    RepMoved(s, s', m, y.at, x.at, {x.at, y.at, z.at, Root(n), At(c)});
    RepMoved(s, s', n, y.at, z.at, {x.at, y.at, z.at, Root(m), At(c)});
    CtxMoved(s, s', c, x.at, y.at, {x.at, y.at, z.at, Root(m), Root(n)});
  }

  lemma {:induction false} ApartDoubleLeft<V>(c: Ctx<V>, x: Item<V>, b: Balance, z: Item<V>, d: Balance, y: Item<V>,
                                              e: Balance, bx: Balance, bz: Balance,
                                              l: Tree<V>, m: Tree<V>, n: Tree<V>, r: Tree<V>)
    requires Apart(c, Node(Node(l, z, d, Node(m, y, e, n)), x, b, r))
    ensures Apart(c, Node(Node(l, z, bz, m), y, AVLBalanced, Node(n, x, bx, r)))
    ensures x.at != y.at && x.at != z.at && y.at != z.at && Distinct(m) && Distinct(n)
    ensures Ats(l) !! {x.at, y.at, z.at, 0} + Ats(m) + Ats(n) + CtxAts(c)
    ensures Ats(m) !! {x.at, y.at, z.at, 0} + Ats(n) + CtxAts(c)
    ensures Ats(n) !! {x.at, y.at, z.at, 0} + CtxAts(c)
    ensures Ats(r) !! {x.at, y.at, z.at, 0} + Ats(m) + Ats(n) + CtxAts(c)
    ensures CtxAts(c) !! {x.at, y.at, z.at, 0}
  {
    SevenLeft(c, Node(Node(l, z, d, Node(m, y, e, n)), x, b, r));
    SevenApart(c, Node(l, z, bz, m), y, Node(n, x, bx, r));
  }

  lemma {:induction false} SevenLeft<V>(c: Ctx<V>, t: Tree<V>)
    requires Apart(c, t) && t.Node? && t.left.Node? && t.left.right.Node?
    ensures var z, y := t.left, t.left.right;
            Seven(c, z.left, z.item.at, y.left, y.item.at, y.right, t.item.at, t.right)
  {
    var z, y := t.left, t.left.right;
    assert Distinct(z) && Ats(z) == Ats(z.left) + {z.item.at} + Ats(y);
    assert Distinct(y) && Ats(y) == Ats(y.left) + {y.item.at} + Ats(y.right);
  }

  /** Rewriting the six cells of a double rotation, deep side left. */
  lemma {:induction false} DoubleLeft<V>(s: Store<V>, s': Store<V>, c: Ctx<V>, x: Item<V>, b: Balance, z: Item<V>,
                                         d: Balance, y: Item<V>, e: Balance, bx: Balance, bz: Balance,
                                         l: Tree<V>, m: Tree<V>, n: Tree<V>, r: Tree<V>)
    requires Holds(s, c, Node(Node(l, z, d, Node(m, y, e, n)), x, b, r))
    requires {x.at, y.at, z.at} <= s'.Keys
    requires s'[x.at] == Cell(Root(n), Root(r), y.at, bx, x.key, x.value)
    requires s'[z.at] == Cell(Root(l), Root(m), y.at, bz, z.key, z.value)
    requires s'[y.at] == Cell(z.at, x.at, At(c), AVLBalanced, y.key, y.value)
    requires m.Node? ==> Reparented(s, s', Root(m), z.at)
    requires n.Node? ==> Reparented(s, s', Root(n), x.at)
    requires c != Top ==> Relinked(s, s', c, y.at)
    requires Keeps(s, s', {x.at, y.at, z.at, Root(m), Root(n), At(c)})
    ensures Holds(s', c, Node(Node(l, z, bz, m), y, AVLBalanced, Node(n, x, bx, r)))
  {
    ApartDoubleLeft(c, x, b, z, d, y, e, bx, bz, l, m, n, r);
    RootIn(m);
    RootIn(n);
    AtIn(c);
    assert Rep(s, Node(l, z, d, Node(m, y, e, n)), x.at) && Rep(s, Node(m, y, e, n), z.at);
    var ps := {x.at, y.at, z.at, Root(m), Root(n), At(c)};
    RepKept(s, s', l, z.at, ps);
    RepKept(s, s', r, x.at, ps);
    RepMoved(s, s', m, y.at, z.at, {x.at, y.at, z.at, Root(n), At(c)});
    RepMoved(s, s', n, y.at, x.at, {x.at, y.at, z.at, Root(m), At(c)});
    CtxMoved(s, s', c, x.at, y.at, {x.at, y.at, z.at, Root(m), Root(n)});
  }

  /** The two balance factors that removal repairs after a single rotation. */
  lemma {:induction false} Repaired<V>(s: Store<V>, c: Ctx<V>, t: Tree<V>, side: Balance)
    requires CanSingle(t, side) && Holds(s, c, SingleRotated(t, side))
    ensures var y := if side == AVLRight then t.right else t.left;
            && Root(t) in s && Root(y) in s
            && Holds(SetBalance(SetBalance(s, Root(t), side), Root(y), Other(side)), c, RepairedRotation(t, side))
  {
    var u, v := SingleRotated(t, side), RepairedRotation(t, side);
    if side == AVLRight {
      var e := InLeft(u.item, u.bal, u.right, c);
      var d := InLeft(u.left.item, u.left.bal, u.left.right, e);
      HoldsFill(s, e, u.left);
      HoldsFill(s, d, u.left.left);
      Rebalanced(s, d, u.left.left, side);
      Rebalanced(SetBalance(s, Root(t), side), e, v.left, Other(side));
    } else {
      var e := InRight(u.left, u.item, u.bal, c);
      var d := InRight(u.right.left, u.right.item, u.right.bal, e);
      HoldsFill(s, e, u.right);
      HoldsFill(s, d, u.right.right);
      Rebalanced(s, d, u.right.right, side);
      Rebalanced(SetBalance(s, Root(t), side), e, v.right, Other(side));
    }
  }

  // ----- what the rotation code writes -----

  /** The store after the promoted node is linked where the rotated one hung. */
  ghost function Promoted<V>(s: Store<V>, c: Ctx<V>, q: Ptr): Store<V> {
    if At(c) in s && c != Top then s[At(c) := Linked(c, s[At(c)], q)] else s
  }

  function Inner<V>(s: Store<V>, child: Ptr, side: Balance): Ptr
    requires child in s
  {
    if side == AVLRight then s[child].left else s[child].right
  }

  /** The distinct nodes a single rotation needs ... */
  predicate SingleNodes<V>(s: Store<V>, self: Ptr, child: Ptr, side: Balance) {
    && self in s && child in s && self != child
    && var m := Inner(s, child, side); m != 0 ==> m in s && m != self && m != child
  }

  /** ... and the cells it writes. */
  ghost predicate SingleTurned<V>(s: Store<V>, s': Store<V>, self: Ptr, child: Ptr, side: Balance)
    requires SingleNodes(s, self, child, side)
  {
    var m := Inner(s, child, side);
    && s'.Keys == s.Keys && Keeps(s, s', {self, child, m})
    && s'[self] == (if side == AVLRight then s[self].(right := m, parent := child, bal := AVLBalanced)
                    else s[self].(left := m, parent := child, bal := AVLBalanced))
    && s'[child] == (if side == AVLRight then s[child].(left := self, parent := s[self].parent, bal := AVLBalanced)
                     else s[child].(right := self, parent := s[self].parent, bal := AVLBalanced))
    && (m != 0 ==> Reparented(s, s', m, self))
  }

  lemma {:induction false} SingleReady<V>(s: Store<V>, c: Ctx<V>, t: Tree<V>, side: Balance)
    requires Holds(s, c, t) && CanSingle(t, side)
    ensures var y := if side == AVLRight then t.right else t.left;
            SingleNodes(Promoted(s, c, Root(y)), Root(t), Root(y), side)
  {
    var y := if side == AVLRight then t.right else t.left;
    AtIn(c);
    assert Rep(s, y, Root(t));
    if side == AVLRight {
      ApartSingleRight(c, t.item, t.bal, y.item, y.bal, t.left, y.left, y.right);
      RootHeld(s, y.left, Root(y));
    } else {
      ApartSingleLeft(c, t.item, t.bal, y.item, y.bal, y.left, y.right, t.right);
      RootHeld(s, y.right, Root(y));
    }
  }

  lemma {:induction false} SingleDone<V>(s: Store<V>, s': Store<V>, c: Ctx<V>, t: Tree<V>, side: Balance)
    requires Holds(s, c, t) && CanSingle(t, side)
    requires var y := if side == AVLRight then t.right else t.left;
             && SingleNodes(Promoted(s, c, Root(y)), Root(t), Root(y), side)
             && SingleTurned(Promoted(s, c, Root(y)), s', Root(t), Root(y), side)
    ensures Holds(s', c, SingleRotated(t, side))
  {
    var y := if side == AVLRight then t.right else t.left;
    AtIn(c);
    assert Rep(s, y, Root(t));
    if side == AVLRight {
      ApartSingleRight(c, t.item, t.bal, y.item, y.bal, t.left, y.left, y.right);
      RootHeld(s, y.left, Root(y));
      SingleRight(s, s', c, t.item, t.bal, y.item, y.bal, t.left, y.left, y.right);
    } else {
      ApartSingleLeft(c, t.item, t.bal, y.item, y.bal, y.left, y.right, t.right);
      RootHeld(s, y.right, Root(y));
      SingleLeft(s, s', c, t.item, t.bal, y.item, y.bal, y.left, y.right, t.right);
    }
  }

  predicate DoubleNodes<V>(s: Store<V>, self: Ptr, child: Ptr, grandchild: Ptr) {
    && self in s && child in s && grandchild in s && self != child && self != grandchild && child != grandchild
    && var l, r := s[grandchild].left, s[grandchild].right;
    && (l != 0 ==> l in s && l != self && l != child && l != grandchild && l != r)
    && (r != 0 ==> r in s && r != self && r != child && r != grandchild)
    && s[grandchild].bal != AVLNew
  }

  ghost predicate DoubleTurned<V>(s: Store<V>, s': Store<V>, self: Ptr, child: Ptr, grandchild: Ptr, side: Balance)
    requires DoubleNodes(s, self, child, grandchild)
  {
    var g := s[grandchild];
    var lp, rp := if side == AVLRight then self else child, if side == AVLRight then child else self;
    && s'.Keys == s.Keys && Keeps(s, s', {self, child, grandchild, g.left, g.right})
    && s'[grandchild] == Cell(lp, rp, s[self].parent, AVLBalanced, g.key, g.value)
    && s'[self] == (if side == AVLRight
                    then s[self].(right := g.left, parent := grandchild, bal := SelfBalance(g.bal, side))
                    else s[self].(left := g.right, parent := grandchild, bal := SelfBalance(g.bal, side)))
    && s'[child] == (if side == AVLRight
                     then s[child].(left := g.right, parent := grandchild, bal := ChildBalance(g.bal, side))
                     else s[child].(right := g.left, parent := grandchild, bal := ChildBalance(g.bal, side)))
    && (g.left != 0 ==> Reparented(s, s', g.left, lp))
    && (g.right != 0 ==> Reparented(s, s', g.right, rp))
  }

  lemma {:induction false} DoubleReady<V>(s: Store<V>, c: Ctx<V>, t: Tree<V>, side: Balance)
    requires Holds(s, c, t) && CanDouble(t, side)
    ensures var z := if side == AVLRight then t.right else t.left;
            var y := if side == AVLRight then z.left else z.right;
            DoubleNodes(Promoted(s, c, Root(y)), Root(t), Root(z), Root(y))
  {
    var z := if side == AVLRight then t.right else t.left;
    var y := if side == AVLRight then z.left else z.right;
    AtIn(c);
    assert Rep(s, z, Root(t));
    assert Rep(s, y, Root(z));
    RootHeld(s, y.left, Root(y));
    RootHeld(s, y.right, Root(y));
    if side == AVLRight {
      ApartDoubleRight(c, t.item, t.bal, z.item, z.bal, y.item, y.bal, t.bal, t.bal, t.left, y.left, y.right, z.right);
    } else {
      ApartDoubleLeft(c, t.item, t.bal, z.item, z.bal, y.item, y.bal, t.bal, t.bal, z.left, y.left, y.right, t.right);
    }
  }

  lemma {:induction false} DoubleDoneRight<V>(s: Store<V>, s': Store<V>, c: Ctx<V>, t: Tree<V>)
    requires Holds(s, c, t) && CanDouble(t, AVLRight)
    requires var z := t.right; var y := z.left;
             && DoubleNodes(Promoted(s, c, Root(y)), Root(t), Root(z), Root(y))
             && DoubleTurned(Promoted(s, c, Root(y)), s', Root(t), Root(z), Root(y), AVLRight)
    ensures Holds(s', c, DoubleRotated(t, AVLRight))
  {
    var z := t.right;
    var y := z.left;
    var bx, bz := SelfBalance(y.bal, AVLRight), ChildBalance(y.bal, AVLRight);
    AtIn(c);
    assert Rep(s, z, Root(t));
    assert Rep(s, y, Root(z));
    RootHeld(s, y.left, Root(y));
    RootHeld(s, y.right, Root(y));
    ApartDoubleRight(c, t.item, t.bal, z.item, z.bal, y.item, y.bal, bx, bz, t.left, y.left, y.right, z.right);
    DoubleRight(s, s', c, t.item, t.bal, z.item, z.bal, y.item, y.bal, bx, bz, t.left, y.left, y.right, z.right);
  }

  lemma {:induction false} DoubleDoneLeft<V>(s: Store<V>, s': Store<V>, c: Ctx<V>, t: Tree<V>)
    requires Holds(s, c, t) && CanDouble(t, AVLLeft)
    requires var z := t.left; var y := z.right;
             && DoubleNodes(Promoted(s, c, Root(y)), Root(t), Root(z), Root(y))
             && DoubleTurned(Promoted(s, c, Root(y)), s', Root(t), Root(z), Root(y), AVLLeft)
    ensures Holds(s', c, DoubleRotated(t, AVLLeft))
  {
    var z := t.left;
    var y := z.right;
    var bx, bz := SelfBalance(y.bal, AVLLeft), ChildBalance(y.bal, AVLLeft);
    AtIn(c);
    assert Rep(s, z, Root(t));
    assert Rep(s, y, Root(z));
    RootHeld(s, y.left, Root(y));
    RootHeld(s, y.right, Root(y));
    ApartDoubleLeft(c, t.item, t.bal, z.item, z.bal, y.item, y.bal, bx, bz, z.left, y.left, y.right, t.right);
    DoubleLeft(s, s', c, t.item, t.bal, z.item, z.bal, y.item, y.bal, bx, bz, z.left, y.left, y.right, t.right);
  }

  // ----- addresses and counts -----

  function AtSet<V>(xs: seq<Item<V>>): set<Ptr> {
    set i | 0 <= i < |xs| :: xs[i].at
  }

  lemma {:induction false} AtsOfItems<V>(t: Tree<V>)
    ensures Ats(t) == AtSet(Items(t))
    decreases t
  {
    if t.Node? {
      AtsOfItems(t.left);
      AtsOfItems(t.right);
      AtSetSplit(Items(t.left), t.item, Items(t.right));
    }
  }

  lemma AtSetSplit<V>(a: seq<Item<V>>, x: Item<V>, b: seq<Item<V>>)
    ensures AtSet(a + [x] + b) == AtSet(a) + {x.at} + AtSet(b)
    ensures AtSet(a + b) == AtSet(a) + AtSet(b)
  {
    AtSetConcat(a, b);
    AtSetConcat(a, [x]);
    AtSetConcat(a + [x], b);
    assert AtSet([x]) == {x.at} by {
      assert [x][0] == x;
    }
  }

  lemma AtSetConcat<V>(a: seq<Item<V>>, b: seq<Item<V>>)
    ensures AtSet(a + b) == AtSet(a) + AtSet(b)
  {
    var s := a + b;
    assert forall i :: 0 <= i < |a| ==> s[i] == a[i];
    assert forall i :: 0 <= i < |b| ==> s[|a| + i] == b[i];
  }

  /** An unused address can always be named. */
  lemma {:induction false} FreshAddress(ps: set<Ptr>) returns (p: Ptr)
    ensures p > 0 && forall q :: q in ps ==> q < p
  {
    if ps == {} {
      p := 1;
    } else {
      var q :| q in ps;
      var r := FreshAddress(ps - {q});
      p := if q < r then r else q + 1;
      assert ps == (ps - {q}) + {q};
    }
  }
}
