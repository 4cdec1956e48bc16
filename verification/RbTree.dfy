/** The red-black tree operations of code/lib/kernel/rbtree.c, on nodes linked through the heap. */
module RbTree {
  import opened RbShape

  ghost function Own(n: Node?): set<Node> { if n == null then {} else {n} }

  /** What the contents of a node become when its link to `x` leads to `y` instead. */
  ghost function Relink(k: Cell, x: Node, y: Node?): Cell {
    if k.left == x then k.(left := y) else k.(right := y)
  }

  /**
   `m'` is `m` after rotating `x` down and its child `y` up, where `b` is the subtree between them and `p` the parent.
   */
  ghost predicate Rotated(m: Cells, m': Cells, x: Node, y: Node, b: Node?, p: Node?, x': Cell, y': Cell) {
    && m'.Keys == m.Keys && x in m && y in m
    && m'[x] == x' && m'[y] == y'
    && (b != null ==> b in m && m'[b] == m[b].(parent := x))
    && (p != null ==> p in m && m'[p] == Relink(m[p], x, y))
    && Off(m, m', {x, y} + Own(b) + Own(p))
  }

  lemma {:induction false} Linked(m: Cells, root: Node?, ctx: Ctx, x: Node)
    requires CRep(m, root, ctx, x) && x !in CSet(ctx)
    ensures Own(Par(ctx)) <= CSet(ctx)
    ensures ctx.InL? ==> ctx.node in m && m[ctx.node].left == x
    ensures ctx.InR? ==> ctx.node in m && m[ctx.node].left != x && m[ctx.node].right == x
  {
    match ctx
    case Top =>
    case InL(_, _, _, _) =>
    case InR(l, _, _, _) =>
      assert l.T? ==> l.node in Set(l);
  }

  /** Three subtrees, two nodes and a path that share nothing. */
  ghost predicate Apart(a: Tree, x: Node, b: Tree, y: Node, c: Tree, ctx: Ctx) {
    && Disj(a) && Disj(b) && Disj(c) && CDisj(ctx) && x != y
    && {x, y} !! Set(a) + Set(b) + Set(c) + CSet(ctx)
    && Set(a) !! Set(b) && Set(b) !! Set(c) && Set(a) !! Set(c)
    && Set(a) + Set(b) + Set(c) !! CSet(ctx)
  }

  /** The pieces around a rotation survive it. */
  lemma {:induction false} RotPieces(m: Cells, m': Cells, root: Node?, root': Node?, a: Tree, x: Node, b: Tree, y: Node,
                                     c: Tree, ctx: Ctx, p: Node, q: Node, r: Node, x': Cell, y': Cell)
    requires Apart(a, x, b, y, c, ctx)
    requires Rep(m, a, p) && Rep(m, b, q) && Rep(m, c, r) && CRep(m, root, ctx, x)
    requires Rotated(m, m', x, y, Ptr(b), Par(ctx), x', y')
    requires root' == if ctx.Top? then y else root
    ensures Rep(m', a, p) && Rep(m', b, x) && Rep(m', c, r) && CRep(m', root', ctx, y)
  {
    var touched := {x, y} + Own(Ptr(b)) + Own(Par(ctx));
    assert Own(Ptr(b)) <= Set(b);
    Linked(m, root, ctx, x);
    Frame(m, m', touched, a, p);
    Frame(m, m', touched, c, r);
    assert b.T? ==> Set(b) * touched <= {b.node};
    FrameRoot(m, m', touched, b, q, x);
    assert !ctx.Top? ==> CSet(ctx) * touched <= {ctx.node};
    CFrameHole(m, m', touched, root, root', ctx, x, y);
  }

  lemma {:induction false} ApartSym(a: Tree, x: Node, b: Tree, y: Node, c: Tree, ctx: Ctx)
    requires Apart(a, x, b, y, c, ctx)
    ensures Apart(c, y, b, x, a, ctx)
  {
    assert {y, x} == {x, y} && Set(c) + Set(b) + Set(a) == Set(a) + Set(b) + Set(c);
  }

  lemma {:induction false} RightHeavyApart(a: Tree, x: Node, kx: Color, b: Tree, y: Node, ky: Color, c: Tree, ctx: Ctx)
    ensures var t := T(a, x, kx, T(b, y, ky, c));
      Disj(t) && CDisj(ctx) && Set(t) !! CSet(ctx) <==> Apart(a, x, b, y, c, ctx)
  {
    var t, u := T(a, x, kx, T(b, y, ky, c)), T(b, y, ky, c);
    var l := Set(a) + Set(b) + Set(c);
    assert Set(u) == Set(b) + {y} + Set(c);
    assert Set(t) == l + {x, y};
    assert Set(t) !! CSet(ctx) <==> l !! CSet(ctx) && {x, y} !! CSet(ctx);
    assert Disj(u) <==> y !in Set(b) && y !in Set(c) && Set(b) !! Set(c) && Disj(b) && Disj(c);
    assert {x, y} !! l + CSet(ctx) <==> {x, y} !! l && {x, y} !! CSet(ctx);
    assert {x, y} !! l <==> x !in l && y !in l;
  }

  lemma {:induction false} LeftHeavyApart(a: Tree, x: Node, kx: Color, b: Tree, y: Node, ky: Color, c: Tree, ctx: Ctx)
    ensures var t := T(T(a, x, kx, b), y, ky, c);
      Disj(t) && CDisj(ctx) && Set(t) !! CSet(ctx) <==> Apart(a, x, b, y, c, ctx)
  {
    var t, u := T(T(a, x, kx, b), y, ky, c), T(a, x, kx, b);
    var l := Set(a) + Set(b) + Set(c);
    assert Set(u) == Set(a) + {x} + Set(b);
    assert Set(t) == l + {x, y};
    assert Set(t) !! CSet(ctx) <==> l !! CSet(ctx) && {x, y} !! CSet(ctx);
    assert Disj(u) <==> x !in Set(a) && x !in Set(b) && Set(a) !! Set(b) && Disj(a) && Disj(b);
    assert {x, y} !! l + CSet(ctx) <==> {x, y} !! l && {x, y} !! CSet(ctx);
    assert {x, y} !! l <==> x !in l && y !in l;
  }

  /** `a x (b y c)` in memory, taken apart. */
  lemma {:induction false} RightHeavy(m: Cells, root: Node?, a: Tree, x: Node, kx: Color, b: Tree, y: Node, ky: Color,
                                      c: Tree, ctx: Ctx)
    ensures Focus(m, root, T(a, x, kx, T(b, y, ky, c)), ctx) <==>
      && Apart(a, x, b, y, c, ctx) && CRep(m, root, ctx, x)
      && Rep(m, a, x) && Rep(m, b, y) && Rep(m, c, y)
      && x in m && y in m && m[x] == Cell(Par(ctx), Ptr(a), y, kx) && m[y] == Cell(x, Ptr(b), Ptr(c), ky)
  {
    RightHeavyApart(a, x, kx, b, y, ky, c, ctx);
    assert Rep(m, T(b, y, ky, c), x) <==> y in m && m[y] == Cell(x, Ptr(b), Ptr(c), ky) && Rep(m, b, y) && Rep(m, c, y);
  }

  /** `(a x b) y c` in memory, taken apart. */
  lemma {:induction false} LeftHeavy(m: Cells, root: Node?, a: Tree, x: Node, kx: Color, b: Tree, y: Node, ky: Color,
                                     c: Tree, ctx: Ctx)
    ensures Focus(m, root, T(T(a, x, kx, b), y, ky, c), ctx) <==>
      && Apart(a, x, b, y, c, ctx) && CRep(m, root, ctx, y)
      && Rep(m, a, x) && Rep(m, b, x) && Rep(m, c, y)
      && x in m && y in m && m[y] == Cell(Par(ctx), x, Ptr(c), ky) && m[x] == Cell(y, Ptr(a), Ptr(b), kx)
  {
    LeftHeavyApart(a, x, kx, b, y, ky, c, ctx);
    assert Rep(m, T(a, x, kx, b), y) <==> x in m && m[x] == Cell(y, Ptr(a), Ptr(b), kx) && Rep(m, a, x) && Rep(m, b, x);
  }

  /** A rotation is done on distinct nodes. */
  lemma {:induction false} Distinct(m: Cells, root: Node?, a: Tree, x: Node, b: Tree, y: Node, c: Tree, ctx: Ctx,
                                    p: Node, q: Node)
    requires Apart(a, x, b, y, c, ctx)
    requires Rep(m, b, p) && CRep(m, root, ctx, q)
    ensures b.T? ==> b.node in m && b.node != x && b.node != y
    ensures !ctx.Top? ==> ctx.node in m && ctx.node != x && ctx.node != y && ctx.node != Ptr(b)
  {
    assert Own(Ptr(b)) <= Set(b);
    assert Own(Par(ctx)) <= CSet(ctx);
  }

  /** `rb_rotate_left` */
  method RotateLeft(x: Node, root: Root, ghost s: set<Node>)
    requires x in s && x.right != null && x.right in s && x.right != x
    requires x.right.left != null ==> x.right.left in s && x.right.left != x && x.right.left != x.right
    requires x.parent != null ==> x.parent in s && x.parent != x && x.parent != x.right && x.parent != x.right.left
    modifies root, s
    ensures var m := old(Snap(s)); var y := old(x.right); var b := old(x.right.left);
            Rotated(m, Snap(s), x, y, b, old(x.parent), Cell(y, m[x].left, b, m[x].color),
                    Cell(m[x].parent, x, m[y].right, m[y].color))
    ensures root.node == old(if x.parent == null then x.right else root.node)
  {
    var y := x.right;
    var parent := x.parent;
    x.right := y.left;
    if y.left != null {
      y.left.parent := x;
    }
    y.parent := parent;
    if parent == null {
      root.node := y;
    } else if x == parent.left {
      parent.left := y;
    } else {
      parent.right := y;
    }
    y.left := x;
    x.parent := y;
  }

  /** `rb_rotate_right` */
  method RotateRight(y: Node, root: Root, ghost s: set<Node>)
    requires y in s && y.left != null && y.left in s && y.left != y
    requires y.left.right != null ==> y.left.right in s && y.left.right != y && y.left.right != y.left
    requires y.parent != null ==> y.parent in s && y.parent != y && y.parent != y.left && y.parent != y.left.right
    modifies root, s
    ensures var m := old(Snap(s)); var x := old(y.left); var b := old(y.left.right);
            Rotated(m, Snap(s), y, x, b, old(y.parent), Cell(x, b, m[y].right, m[y].color),
                    Cell(m[y].parent, m[x].left, y, m[x].color))
    ensures root.node == old(if y.parent == null then y.left else root.node)
  {
    var x := y.left;
    var parent := y.parent;
    y.left := x.right;
    if x.right != null {
      x.right.parent := y;
    }
    x.parent := parent;
    if parent == null {
      root.node := x;
    } else if y == parent.left {
      parent.left := x;
    } else {
      parent.right := x;
    }
    x.right := y;
    y.parent := x;
  }

  // ---------- moving the focus ----------

  lemma {:induction false} DownL(m: Cells, root: Node?, l: Tree, x: Node, k: Color, r: Tree, c: Ctx)
    ensures Focus(m, root, T(l, x, k, r), c) <==> Focus(m, root, l, InL(x, k, r, c))
  {
    assert Set(T(l, x, k, r)) == Set(l) + {x} + Set(r);
    assert CSet(InL(x, k, r, c)) == {x} + Set(r) + CSet(c);
  }

  lemma {:induction false} DownR(m: Cells, root: Node?, l: Tree, x: Node, k: Color, r: Tree, c: Ctx)
    ensures Focus(m, root, T(l, x, k, r), c) <==> Focus(m, root, r, InR(l, x, k, c))
  {
    assert Set(T(l, x, k, r)) == Set(l) + {x} + Set(r);
    assert CSet(InR(l, x, k, c)) == {x} + Set(l) + CSet(c);
  }

  /** A focus anywhere in the tree says no more and no less than one on the whole tree. */
  lemma {:induction false} FocusPlug(m: Cells, root: Node?, t: Tree, c: Ctx)
    ensures Whole(m, root, Plug(c, t)) <==> Focus(m, root, t, c)
    decreases c
  {
    match c
    case Top =>
    case InL(x, k, r, up) => FocusPlug(m, root, T(t, x, k, r), up); DownL(m, root, t, x, k, r, up);
    case InR(l, x, k, up) => FocusPlug(m, root, T(l, x, k, t), up); DownR(m, root, l, x, k, t, up);
  }

  lemma {:induction false} RootInPath(m: Cells, root: Node?, c: Ctx, x: Node?)
    requires CRep(m, root, c, x)
    ensures !c.Top? ==> root != null && root in CSet(c)
  {
    match c
    case Top =>
    case InL(y, _, _, up) => RootInPath(m, root, up, y);
    case InR(_, y, _, up) => RootInPath(m, root, up, y);
  }

  /** What the fields of a node of the tree hold. */
  lemma {:induction false} Peek(s: set<Node>, root: Root, l: Tree, x: Node, k: Color, r: Tree, c: Ctx)
    requires Whole(Snap(s), root.node, Plug(c, T(l, x, k, r)))
    ensures x in s && x.left == Ptr(l) && x.right == Ptr(r) && x.parent == Par(c) && x.color == k
    ensures l.T? ==> l.node in s && l.node != x && l.node != Ptr(r)
    ensures r.T? ==> r.node in s && r.node != x
    ensures c.Top? <==> root.node == x
  {
    FocusPlug(Snap(s), root.node, T(l, x, k, r), c);
    assert Snap(s)[x] == Cell(Par(c), Ptr(l), Ptr(r), k);
    assert Rep(Snap(s), l, x) && Rep(Snap(s), r, x);
    assert Own(Ptr(l)) <= Set(l) && Own(Ptr(r)) <= Set(r);
    RootInPath(Snap(s), root.node, c, x);
  }

  /** The two children of a node of the tree have the colours the tree gives them. */
  lemma {:induction false} PeekChildren(s: set<Node>, root: Root, l: Tree, x: Node, k: Color, r: Tree, c: Ctx)
    requires Whole(Snap(s), root.node, Plug(c, T(l, x, k, r)))
    ensures l.T? ==> l.node in s && l.node.color == l.color
    ensures r.T? ==> r.node in s && r.node.color == r.color
  {
    if l.T? {
      assert Plug(InL(x, k, r, c), l) == Plug(c, T(l, x, k, r));
      Peek(s, root, l.left, l.node, l.color, l.right, InL(x, k, r, c));
    }
    if r.T? {
      assert Plug(InR(l, x, k, c), r) == Plug(c, T(l, x, k, r));
      Peek(s, root, r.left, r.node, r.color, r.right, InR(l, x, k, c));
    }
  }

  // ---------- rotations and recolouring inside a tree ----------

  /** The subtree `a x (b y c)` becomes `(a x b) y c`. */
  method RotL(x: Node, root: Root, ghost s: set<Node>, ghost a: Tree, ghost kx: Color, ghost b: Tree, ghost y: Node,
              ghost ky: Color, ghost c: Tree, ghost ctx: Ctx)
    requires Whole(Snap(s), root.node, Plug(ctx, T(a, x, kx, T(b, y, ky, c))))
    modifies root, s
    ensures Whole(Snap(s), root.node, Plug(ctx, T(T(a, x, kx, b), y, ky, c)))
  {
    ghost var m, r := Snap(s), root.node;
    FocusPlug(m, r, T(a, x, kx, T(b, y, ky, c)), ctx);
    RightHeavy(m, r, a, x, kx, b, y, ky, c, ctx);
    Distinct(m, r, a, x, b, y, c, ctx, y, x);
    RotateLeft(x, root, s);
    RotPieces(m, Snap(s), r, root.node, a, x, b, y, c, ctx, x, y, y, Cell(y, Ptr(a), Ptr(b), kx),
              Cell(Par(ctx), x, Ptr(c), ky));
    LeftHeavy(Snap(s), root.node, a, x, kx, b, y, ky, c, ctx);
    FocusPlug(Snap(s), root.node, T(T(a, x, kx, b), y, ky, c), ctx);
  }

  /** The subtree `(a x b) y c` becomes `a x (b y c)`. */
  method RotR(y: Node, root: Root, ghost s: set<Node>, ghost a: Tree, ghost x: Node, ghost kx: Color, ghost b: Tree,
              ghost ky: Color, ghost c: Tree, ghost ctx: Ctx)
    requires Whole(Snap(s), root.node, Plug(ctx, T(T(a, x, kx, b), y, ky, c)))
    modifies root, s
    ensures Whole(Snap(s), root.node, Plug(ctx, T(a, x, kx, T(b, y, ky, c))))
  {
    ghost var m, r := Snap(s), root.node;
    FocusPlug(m, r, T(T(a, x, kx, b), y, ky, c), ctx);
    LeftHeavy(m, r, a, x, kx, b, y, ky, c, ctx);
    Distinct(m, r, a, x, b, y, c, ctx, x, y);
    ApartSym(a, x, b, y, c, ctx);
    RotateRight(y, root, s);
    RotPieces(m, Snap(s), r, root.node, c, y, b, x, a, ctx, y, x, x, Cell(x, Ptr(b), Ptr(c), ky),
              Cell(Par(ctx), Ptr(a), y, kx));
    RightHeavy(Snap(s), root.node, a, x, kx, b, y, ky, c, ctx);
    FocusPlug(Snap(s), root.node, T(a, x, kx, T(b, y, ky, c)), ctx);
  }

  lemma {:induction false} Recolored(m: Cells, root: Node?, l: Tree, x: Node, k: Color, k': Color, r: Tree, c: Ctx)
    requires Focus(m, root, T(l, x, k, r), c)
    ensures x in m && m[x].color == k
    ensures Focus(m[x := m[x].(color := k')], root, T(l, x, k', r), c)
  {
    var m' := m[x := m[x].(color := k')];
    Frame(m, m', {x}, l, x);
    Frame(m, m', {x}, r, x);
    CFrame(m, m', {x}, root, c, x);
  }

  /** `rb_set_color` on a node of the tree. */
  method SetColor(x: Node, k: Color, root: Root, ghost s: set<Node>, ghost l: Tree, ghost k0: Color, ghost r: Tree,
                  ghost c: Ctx)
    requires Whole(Snap(s), root.node, Plug(c, T(l, x, k0, r)))
    modifies s
    ensures Whole(Snap(s), root.node, Plug(c, T(l, x, k, r)))
  {
    ghost var m := Snap(s);
    FocusPlug(m, root.node, T(l, x, k0, r), c);
    Recolored(m, root.node, l, x, k0, k, r, c);
    x.color := k;
    assert Snap(s) == m[x := m[x].(color := k)];
    FocusPlug(Snap(s), root.node, T(l, x, k, r), c);
  }
}
