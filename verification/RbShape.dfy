/**
 The shapes a red-black tree of `rb_node`s can take (code/lib/kernel/rbtree.h).

 `Tree` is the abstract value of a subtree; `Ctx` is the path from a position in
 the tree up to the root (a zipper), with the sibling subtrees met on the way.
 `Rep` and `CRep` say that the heap holds a given subtree or path, parent links
 and colours included.
 */
module RbShape {

  datatype Color = Red | Black

  /** `struct rb_node`, embedded in a task_struct. */
  class Node {
    var parent: Node?
    var left: Node?
    var right: Node?
    var color: Color

    constructor ()
      ensures parent == null && left == null && right == null && color == Red
    {
      parent, left, right, color := null, null, null, Red;
    }
  }

  datatype Tree = Leaf | T(left: Tree, node: Node, color: Color, right: Tree)

  datatype Ctx =
    | Top
    | InL(node: Node, color: Color, right: Tree, up: Ctx)
    | InR(left: Tree, node: Node, color: Color, up: Ctx)

  // ---------- values ----------

  ghost function Inorder(t: Tree): seq<Node> {
    match t
    case Leaf => []
    case T(l, x, _, r) => Inorder(l) + [x] + Inorder(r)
  }

  /** The in-order sequence to the left of the hole. */
  ghost function Before(c: Ctx): seq<Node> {
    match c
    case Top => []
    case InL(_, _, _, up) => Before(up)
    case InR(l, x, _, up) => Before(up) + Inorder(l) + [x]
  }

  /** The in-order sequence to the right of the hole. */
  ghost function After(c: Ctx): seq<Node> {
    match c
    case Top => []
    case InL(x, _, r, up) => [x] + Inorder(r) + After(up)
    case InR(_, _, _, up) => After(up)
  }

  /** The in-order sequence of the whole tree. */
  ghost function All(t: Tree, c: Ctx): seq<Node> { Before(c) + Inorder(t) + After(c) }

  ghost function Plug(c: Ctx, t: Tree): Tree {
    match c
    case Top => t
    case InL(x, k, r, up) => Plug(up, T(t, x, k, r))
    case InR(l, x, k, up) => Plug(up, T(l, x, k, t))
  }

  ghost function Depth(c: Ctx): nat { if c.Top? then 0 else 1 + Depth(c.up) }

  /** Puts the path `inner` below the path `outer`. */
  ghost function Append(inner: Ctx, outer: Ctx): Ctx {
    match inner
    case Top => outer
    case InL(x, k, r, up) => InL(x, k, r, Append(up, outer))
    case InR(l, x, k, up) => InR(l, x, k, Append(up, outer))
  }

  ghost function Set(t: Tree): set<Node> {
    match t
    case Leaf => {}
    case T(l, x, _, r) => Set(l) + {x} + Set(r)
  }

  ghost function CSet(c: Ctx): set<Node> {
    match c
    case Top => {}
    case InL(x, _, r, up) => {x} + Set(r) + CSet(up)
    case InR(l, x, _, up) => Set(l) + {x} + CSet(up)
  }

  /** No node occurs twice. */
  ghost predicate Disj(t: Tree) {
    match t
    case Leaf => true
    case T(l, x, _, r) => x !in Set(l) && x !in Set(r) && Set(l) !! Set(r) && Disj(l) && Disj(r)
  }

  ghost predicate CDisj(c: Ctx) {
    match c
    case Top => true
    case InL(x, _, r, up) => x !in Set(r) && x !in CSet(up) && Set(r) !! CSet(up) && Disj(r) && CDisj(up)
    case InR(l, x, _, up) => x !in Set(l) && x !in CSet(up) && Set(l) !! CSet(up) && Disj(l) && CDisj(up)
  }

  // ---------- red-black invariants ----------

  ghost predicate IsRed(t: Tree) { t.T? && t.color == Red }

  /** Every path from `t` to a leaf meets exactly `h` black nodes. */
  ghost predicate Bal(t: Tree, h: int) {
    match t
    case Leaf => h == 0
    case T(l, _, Black, r) => Bal(l, h - 1) && Bal(r, h - 1)
    case T(l, _, Red, r) => Bal(l, h) && Bal(r, h)
  }

  /** No red node has a red child. */
  ghost predicate NoRR(t: Tree) {
    match t
    case Leaf => true
    case T(l, _, k, r) => NoRR(l) && NoRR(r) && (k == Red ==> !IsRed(l) && !IsRed(r))
  }

  /** The red-black invariants of a whole tree. */
  ghost predicate RB(t: Tree) {
    !IsRed(t) && NoRR(t) && exists h :: Bal(t, h)
  }

  /** Filling the hole of `c` with a subtree of black height `h` gives a balanced tree. */
  ghost predicate CBal(c: Ctx, h: int) {
    match c
    case Top => true
    case InL(_, k, r, up) => Bal(r, h) && CBal(up, if k == Black then h + 1 else h)
    case InR(l, _, k, up) => Bal(l, h) && CBal(up, if k == Black then h + 1 else h)
  }

  /** The node just above the hole is black; there is one. */
  ghost predicate CBlack(c: Ctx) { !c.Top? && c.color == Black }

  /** A path has no two reds in a row and no red root; the hole itself is not looked at. */
  ghost predicate CNoRR(c: Ctx) {
    match c
    case Top => true
    case InL(_, k, r, up) => NoRR(r) && (k == Red ==> !IsRed(r) && CBlack(up)) && CNoRR(up)
    case InR(l, _, k, up) => NoRR(l) && (k == Red ==> !IsRed(l) && CBlack(up)) && CNoRR(up)
  }

  // ---------- memory ----------

  /** `struct rb_root` */
  class Root {
    var node: Node?

    constructor ()
      ensures node == null
    {
      node := null;
    }
  }

  /** The contents of one node. */
  datatype Cell = Cell(parent: Node?, left: Node?, right: Node?, color: Color)

  type Cells = map<Node, Cell>

  /** The contents of the nodes in `s`, as the heap holds them. */
  ghost function Snap(s: set<Node>): (m: Cells)
    reads s
    ensures m.Keys == s
  {
    map x | x in s :: Cell(x.parent, x.left, x.right, x.color)
  }

  /** The pointer to a subtree. */
  ghost function Ptr(t: Tree): Node? { if t.T? then t.node else null }

  /** The parent pointer a node in the hole carries. */
  ghost function Par(c: Ctx): Node? { if c.Top? then null else c.node }

  /** The nodes of `t` are linked as `t` says, below parent `p`. */
  ghost predicate Rep(m: Cells, t: Tree, p: Node?) {
    match t
    case Leaf => true
    case T(l, x, k, r) =>
      x in m && m[x] == Cell(p, Ptr(l), Ptr(r), k) && Rep(m, l, x) && Rep(m, r, x)
  }

  /** The path `c` is linked up to the root pointer `root`; its hole points to `hole`. */
  ghost predicate CRep(m: Cells, root: Node?, c: Ctx, hole: Node?) {
    match c
    case Top => root == hole
    case InL(x, k, r, up) =>
      x in m && m[x] == Cell(Par(up), hole, Ptr(r), k) && Rep(m, r, x) && CRep(m, root, up, x)
    case InR(l, x, k, up) =>
      x in m && m[x] == Cell(Par(up), Ptr(l), hole, k) && Rep(m, l, x) && CRep(m, root, up, x)
  }

  /** The memory below `root` is the subtree `t` in the path `c`. */
  ghost predicate Focus(m: Cells, root: Node?, t: Tree, c: Ctx) {
    Disj(t) && CDisj(c) && Set(t) !! CSet(c) && Rep(m, t, Par(c)) && CRep(m, root, c, Ptr(t))
  }

  /** The memory below `root` is the tree `w`. */
  ghost predicate Whole(m: Cells, root: Node?, w: Tree) {
    Disj(w) && Rep(m, w, null) && root == Ptr(w)
  }

  /** Outside `touched` the two memories agree. */
  ghost predicate Off(m: Cells, m': Cells, touched: set<Node>) {
    m'.Keys == m.Keys && forall x <- m.Keys :: x !in touched ==> m'[x] == m[x]
  }

  lemma {:induction false} Frame(m: Cells, m': Cells, touched: set<Node>, t: Tree, p: Node?)
    requires Rep(m, t, p) && Off(m, m', touched) && Set(t) !! touched
    ensures Rep(m', t, p)
  {
    match t
    case Leaf =>
    case T(l, x, _, r) => Frame(m, m', touched, l, x); Frame(m, m', touched, r, x);
  }

  lemma {:induction false} CFrame(m: Cells, m': Cells, touched: set<Node>, root: Node?, c: Ctx, hole: Node?)
    requires CRep(m, root, c, hole) && Off(m, m', touched) && CSet(c) !! touched
    ensures CRep(m', root, c, hole)
  {
    match c
    case Top =>
    case InL(x, k, r, up) => Frame(m, m', touched, r, x); CFrame(m, m', touched, root, up, x);
    case InR(l, x, k, up) => Frame(m, m', touched, l, x); CFrame(m, m', touched, root, up, x);
  }

  /** Only the parent link of the subtree's root differs. */
  lemma {:induction false} FrameRoot(m: Cells, m': Cells, touched: set<Node>, t: Tree, p: Node?, q: Node?)
    requires Rep(m, t, p) && Disj(t) && Off(m, m', touched)
    requires t.T? ==> Set(t) * touched <= {t.node} && m'[t.node] == m[t.node].(parent := q)
    ensures Rep(m', t, q)
  {
    match t
    case Leaf =>
    case T(l, x, _, r) => Frame(m, m', touched, l, x); Frame(m, m', touched, r, x);
  }

  /** Only the child link into the hole (or the root pointer) differs. */
  lemma {:induction false} CFrameHole(m: Cells, m': Cells, touched: set<Node>, root: Node?, root': Node?, c: Ctx,
                                      hole: Node?, hole': Node?)
    requires CRep(m, root, c, hole) && CDisj(c) && Off(m, m', touched)
    requires root' == if c.Top? then hole' else root
    requires !c.Top? ==> CSet(c) * touched <= {c.node}
    requires c.InL? ==> m'[c.node] == m[c.node].(left := hole')
    requires c.InR? ==> m'[c.node] == m[c.node].(right := hole')
    ensures CRep(m', root', c, hole')
  {
    match c
    case Top =>
    case InL(x, k, r, up) => Frame(m, m', touched, r, x); CFrame(m, m', touched, root, up, x);
    case InR(l, x, k, up) => Frame(m, m', touched, l, x); CFrame(m, m', touched, root, up, x);
  }

  // ---------- lemmas on values ----------

  /** The subtree of the node just above the hole. */
  ghost function Up(t: Tree, c: Ctx): (u: Tree)
    requires !c.Top?
    ensures u.T?
  {
    if c.InL? then T(t, c.node, c.color, c.right) else T(c.left, c.node, c.color, t)
  }

  lemma {:induction false} AllUp(t: Tree, c: Ctx)
    requires !c.Top?
    ensures All(Up(t, c), c.up) == All(t, c)
  {
  }

  /** Rotation keeps the in-order sequence. */
  lemma {:induction false} InorderRotated(a: Tree, x: Node, kx: Color, kx': Color, b: Tree, y: Node, ky: Color,
                                          ky': Color, c: Tree)
    ensures Inorder(T(a, x, kx, T(b, y, ky, c))) == Inorder(T(T(a, x, kx', b), y, ky', c))
  {
    assert Inorder(T(b, y, ky, c)) == Inorder(b) + [y] + Inorder(c);
    assert Inorder(T(a, x, kx', b)) == Inorder(a) + [x] + Inorder(b);
  }

  lemma {:induction false} PlugInorder(c: Ctx, t: Tree)
    ensures Inorder(Plug(c, t)) == All(t, c)
    decreases c
  {
    match c
    case Top =>
    case InL(x, k, r, up) => PlugInorder(up, T(t, x, k, r)); AllUp(t, c);
    case InR(l, x, k, up) => PlugInorder(up, T(l, x, k, t)); AllUp(t, c);
  }
}
