/** `rb_erase` (code/lib/kernel/rbtree.c): unlinking a node, then repairing the colours. */
module RbRemove {
  import opened RbShape
  import opened RbTree
  import opened RbErase

  /** Any place in a red-black tree fits its subtree. */
  lemma {:induction false} Unplug(t: Tree, c: Ctx) returns (h: int)
    requires RB(Plug(c, t))
    ensures Fits(t, c, h)
    decreases c
  {
    match c
    case Top =>
      h :| Bal(t, h);
    case InL(x, k, r, up) =>
      var h' := Unplug(T(t, x, k, r), up);
      h := if k == Black then h' - 1 else h';
    case InR(l, x, k, up) =>
      var h' := Unplug(T(l, x, k, t), up);
      h := if k == Black then h' - 1 else h';
  }

  /** Unlinking a node with the one subtree `u` below it. */
  lemma {:induction false} UnlinkedFocus(m: Cells, m': Cells, root: Node?, root': Node?, t: Tree, u: Tree, c: Ctx)
    requires Focus(m, root, t, c) && t.T? && ((t.left.Leaf? && u == t.right) || (t.right.Leaf? && u == t.left))
    requires Off(m, m', Own(Ptr(u)) + Own(Par(c))) && root' == if c.Top? then Ptr(u) else root
    requires u.T? ==> u.node in m && m'[u.node] == m[u.node].(parent := Par(c))
    requires !c.Top? ==> c.node in m && m'[c.node] == Relink(m[c.node], t.node, Ptr(u))
    ensures Focus(m', root', u, c)
  {
    var x := t.node;
    var touched := Own(Ptr(u)) + Own(Par(c));
    assert Rep(m, u, x) && Set(u) <= Set(t) && Disj(u);
    assert Own(Ptr(u)) <= Set(u);
    Linked(m, root, c, x);
    FrameRoot(m, m', touched, u, x, Par(c));
    CFrameHole(m, m', touched, root, root', c, x, Ptr(u));
  }

  method UnlinkSingle(node: Node, root: Root, ghost s: set<Node>) returns (child: Node?, parent: Node?, color: Color)
    requires node in s && (node.left == null || node.right == null)
    requires node.parent != null ==>
      node.parent in s && node.parent != node && node.parent != node.left && node.parent != node.right
    requires node.left != null ==> node.left in s && node.left != node
    requires node.right != null ==> node.right in s && node.right != node
    modifies root, s
    ensures child == old(if node.left == null then node.right else node.left) && parent == old(node.parent)
    ensures color == old(node.color)
    ensures root.node == if parent == null then child else old(root.node)
    ensures var m, m' := old(Snap(s)), Snap(s);
      && Off(m, m', Own(child) + Own(parent))
      && (child != null ==> m'[child] == m[child].(parent := parent))
      && (parent != null ==> m'[parent] == Relink(m[parent], node, child))
  {
    if node.left == null {
      child := node.right;
    } else {
      child := node.left;
    }
    parent := node.parent;
    color := node.color;
    if child != null {
      child.parent := parent;
    }
    if parent != null {
      if parent.left == node {
        parent.left := child;
      } else {
        parent.right := child;
      }
    } else {
      root.node := child;
    }
  }

  lemma {:induction false} SingleOk(t: Tree, u: Tree, c: Ctx, h: int)
    requires Fits(t, c, h) && t.T? && ((t.left.Leaf? && u == t.right) || (t.right.Leaf? && u == t.left))
    ensures if t.color == Black then Short(u, c, h - 1) else Fits(u, c, h)
    ensures All(u, c) == Before(c) + Inorder(t.left) + Inorder(t.right) + After(c)
  {
    assert Bal(u, if t.color == Black then h - 1 else h) && NoRR(u);
    if t.color == Black { BalNat(u, h - 1); }
    assert Inorder(t.left) + Inorder(t.right) == Inorder(u);
  }

  method UnlinkIn(node: Node, root: Root, ghost s: set<Node>, ghost t: Tree, ghost u: Tree, ghost c: Ctx)
    returns (child: Node?, parent: Node?, color: Color)
    requires Whole(Snap(s), root.node, Plug(c, t)) && t.T? && t.node == node
    requires (t.left.Leaf? && u == t.right) || (t.right.Leaf? && u == t.left)
    modifies root, s
    ensures Whole(Snap(s), root.node, Plug(c, u))
    ensures child == Ptr(u) && parent == Par(c) && color == t.color
  {
    ghost var m, r := Snap(s), root.node;
    FocusPlug(m, r, t, c);
    Peek(s, root, t.left, node, t.color, t.right, c);
    ParentApart(m, r, t, c);
    child, parent, color := UnlinkSingle(node, root, s);
    UnlinkedFocus(m, Snap(s), r, root.node, t, u, c);
    FocusPlug(Snap(s), root.node, u, c);
  }

  /** `rb_erase` of a node with at most one child. */
  method EraseSingle(node: Node, root: Root, ghost s: set<Node>, ghost t: Tree, ghost c: Ctx, ghost h: int)
    returns (ghost w: Tree)
    requires Whole(Snap(s), root.node, Plug(c, t)) && t.T? && t.node == node && Fits(t, c, h)
    requires t.left.Leaf? || t.right.Leaf?
    modifies root, s
    ensures Whole(Snap(s), root.node, w) && RB(w)
    ensures Inorder(w) == Before(c) + Inorder(t.left) + Inorder(t.right) + After(c)
  {
    ghost var u := if t.left.Leaf? then t.right else t.left;
    SingleOk(t, u, c, h);
    var child, parent, color := UnlinkIn(node, root, s, t, u, c);
    if color == Black {
      w := EraseColor(child, parent, root, s, u, c, h - 1);
    } else {
      w := Plug(c, u);
      FitsOk(u, c, h);
    }
  }

  lemma {:induction false} ParentApart(m: Cells, root: Node?, t: Tree, c: Ctx)
    requires Focus(m, root, t, c) && t.T?
    ensures !c.Top? ==> c.node in m && c.node !in Set(t)
    ensures Own(Ptr(t.left)) + Own(Ptr(t.right)) <= Set(t)
  {
    assert Own(Par(c)) <= CSet(c);
    assert Own(Ptr(t.left)) <= Set(t.left) && Own(Ptr(t.right)) <= Set(t.right);
  }

  // ---------- a node with two children ----------

  /** The path runs through left links only. */
  ghost predicate Leftward(c: Ctx) { !c.Top? ==> c.InL? && Leftward(c.up) }

  /** The uppermost node of a non-empty path. */
  ghost function Last(c: Ctx): Node
    requires !c.Top?
  {
    if c.up.Top? then c.node else Last(c.up)
  }

  /** The contents of the nodes of a path after its hole has been redirected and its upper end hung below `q`. */
  ghost function Respliced(m: Cells, c: Ctx, x: Node, hole: Node?, q: Node?): Cell
    requires !c.Top? && x in m
  {
    var k := if x == c.node then m[x].(left := hole) else m[x];
    if x == Last(c) then k.(parent := q) else k
  }

  lemma {:induction false} LastIn(c: Ctx)
    requires !c.Top?
    ensures Last(c) in CSet(c)
  {
    if !c.up.Top? { LastIn(c.up); }
  }

  /** The path from the successor's place up to the erased node's place, with the erased node replaced. */
  lemma {:induction false} PathSwap(m: Cells, m': Cells, touched: set<Node>, root: Node?, root': Node?, inner: Ctx,
                                    outer: Ctx, outer': Ctx, hole: Node?, hole': Node?)
    requires !inner.Top? && Leftward(inner) && CDisj(inner)
    requires CRep(m, root, Append(inner, outer), hole) && Off(m, m', touched)
    requires forall z <- touched :: z in CSet(inner) ==> z == inner.node || z == Last(inner)
    requires inner.node in m ==> m'[inner.node] == Respliced(m, inner, inner.node, hole', Par(outer'))
    requires Last(inner) in m ==> m'[Last(inner)] == Respliced(m, inner, Last(inner), hole', Par(outer'))
    requires CRep(m', root', outer', Last(inner))
    requires !outer.Top? && !outer'.Top?
    ensures CRep(m', root', Append(inner, outer'), hole')
    decreases inner
  {
    var x, r, up := inner.node, inner.right, inner.up;
    assert Append(inner, outer) == InL(x, inner.color, r, Append(up, outer));
    assert CRep(m, root, Append(up, outer), x) && Rep(m, r, x);
    assert Last(inner) == x || (!up.Top? && Last(inner) == Last(up));
    if !up.Top? { LastIn(up); }
    assert Set(r) <= CSet(inner) && Set(r) !! touched;
    Frame(m, m', touched, r, x);
    if !up.Top? {
      assert Append(up, outer) == InL(up.node, up.color, up.right, Append(up.up, outer));
      assert up.node in m && m[up.node].left == x;
      assert CSet(up) <= CSet(inner);
      if up.node == Last(up) {
        assert up.node != x;
        assert m'[up.node] == m[up.node].(parent := Par(outer'));
      } else {
        assert up.node in CSet(inner) && up.node !in touched;
      }
      PathSwap(m, m', touched, root, root', up, outer, outer', x, x);
    }
  }

  lemma {:induction false} AppendSets(inner: Ctx, outer: Ctx)
    ensures CSet(Append(inner, outer)) == CSet(inner) + CSet(outer)
    ensures CDisj(Append(inner, outer)) <==> CDisj(inner) && CDisj(outer) && CSet(inner) !! CSet(outer)
  {
    if !inner.Top? { AppendSets(inner.up, outer); }
  }

  lemma {:induction false} PlugAppend(inner: Ctx, outer: Ctx, t: Tree)
    ensures Plug(Append(inner, outer), t) == Plug(outer, Plug(inner, t))
    decreases inner
  {
    if !inner.Top? { PlugAppend(inner.up, outer, Up(t, inner)); }
  }

  /** The upper end of a path is where the subtree it runs through hangs. */
  lemma {:induction false} AppendLast(m: Cells, root: Node?, inner: Ctx, outer: Ctx, hole: Node?)
    requires !inner.Top? && CRep(m, root, Append(inner, outer), hole)
    ensures CRep(m, root, outer, Last(inner)) && Last(inner) in m && inner.node in m
    decreases inner
  {
    var up := inner.up;
    assert Append(inner, outer).node == inner.node && Append(inner, outer).up == Append(up, outer);
    assert CRep(m, root, Append(up, outer), inner.node);
    if !up.Top? { AppendLast(m, root, up, outer, inner.node); }
  }

  /** `m'` is `m` after the in-order successor `z` has taken the place of `x`. */
  ghost predicate Spliced(m: Cells, m': Cells, x: Node, z: Node, l: Node, r: Node, ch: Node?, p: Node?) {
    var far := z != r;
    && x in m && z in m && l in m && r in m && m'.Keys == m.Keys
    && m'[z] == Cell(p, l, if far then r else ch, m[x].color)
    && m'[l] == m[l].(parent := z)
    && (p != null ==> p in m && m'[p] == Relink(m[p], x, z))
    && (if far then
          var q := m[z].parent;
          && q != null && q in m
          && (ch != null ==> ch in m && m'[ch] == m[ch].(parent := q))
          && (q == r ==> m'[r] == m[r].(left := ch, parent := z))
          && (q != r ==> m'[r] == m[r].(parent := z) && m'[q] == m[q].(left := ch))
          && Off(m, m', {z, l, r, q} + Own(ch) + Own(p))
        else Off(m, m', {z, l} + Own(p)))
  }

  /** Redirects the child link (or the root pointer) that leads to `node`. */
  method PointParent(node: Node, y: Node, root: Root, ghost s: set<Node>)
    requires node in s && (node.parent != null ==> node.parent in s && node.parent != node)
    modifies root, s
    ensures root.node == old(if node.parent == null then y else root.node)
    ensures var p, m := old(node.parent), old(Snap(s));
      Off(m, Snap(s), Own(p)) && (p != null ==> Snap(s)[p] == Relink(m[p], node, y))
  {
    if node.parent != null {
      if node.parent.left == node {
        node.parent.left := y;
      } else {
        node.parent.right := y;
      }
    } else {
      root.node := y;
    }
  }

  /** Takes the successor out of its place below `parent` and hands it the right subtree of `node`. */
  method Detach(node: Node, successor: Node, child: Node?, parent: Node, ghost s: set<Node>)
    requires {node, successor, parent} <= s && node != successor && parent != successor && node != parent
    requires node.right != null && node.right in s && node.right != node && node.right != successor
    requires child != null ==>
      child in s && child != node && child != successor && child != parent && child != node.right
    modifies s
    ensures var r, m, m' := old(node.right), old(Snap(s)), Snap(s);
      && Off(m, m', {successor, r, parent} + Own(child))
      && m'[successor] == m[successor].(right := r)
      && (child != null ==> m'[child] == m[child].(parent := parent))
      && (parent == r ==> m'[r] == m[r].(left := child, parent := successor))
      && (parent != r ==> m'[r] == m[r].(parent := successor) && m'[parent] == m[parent].(left := child))
  {
    if child != null {
      child.parent := parent;
    }
    parent.left := child;
    successor.right := node.right;
    node.right.parent := successor;
  }

  /** The successor takes over the parent, colour and left subtree of `node`. */
  method TakePlace(node: Node, successor: Node, ghost s: set<Node>)
    requires {node, successor} <= s && node != successor
    requires node.left != null && node.left in s && node.left != node && node.left != successor
    modifies s
    ensures var l, m, m' := old(node.left), old(Snap(s)), Snap(s);
      && Off(m, m', {successor, l})
      && m'[successor] == m[successor].(parent := m[node].parent, color := m[node].color, left := l)
      && m'[l] == m[l].(parent := successor)
  {
    successor.parent := node.parent;
    successor.color := node.color;
    successor.left := node.left;
    node.left.parent := successor;
  }

  /**
   `x` has the children `l` and `r` and the parent `p`; its successor `z` has the parent `q` and the right child `ch`.
   */
  ghost predicate Ready(m: Cells, x: Node, z: Node, l: Node?, r: Node?, q: Node?, ch: Node?, p: Node?) {
    && x in m && z in m && l != null && l in m && r != null && r in m && q != null && q in m
    && m[x].parent == p && m[x].left == l && m[x].right == r && m[z].parent == q && m[z].right == ch
    && x != z && l !in {x, z, r} && r != x && q !in {l, z} && (z == r <==> q == x)
    && (ch != null ==> ch in m && ch !in {x, z, l, r, q})
    && (p != null ==> p in m && p !in {x, z, l, r, q} && p != ch)
  }

  lemma {:induction false} SpliceSteps(m: Cells, m1: Cells, m2: Cells, m': Cells, x: Node, z: Node, l: Node?, r: Node?,
                                       ch: Node?, p: Node?)
    requires z in m && Ready(m, x, z, l, r, m[z].parent, ch, p)
    requires Off(m, m1, Own(p)) && (p != null ==> m1[p] == Relink(m[p], x, z))
    requires z == r ==> m2 == m1
    requires z != r ==>
      var q := m[z].parent;
      && Off(m1, m2, {z, r, q} + Own(ch))
      && m2[z] == m1[z].(right := r)
      && (ch != null ==> m2[ch] == m1[ch].(parent := q))
      && (q == r ==> m2[r] == m1[r].(left := ch, parent := z))
      && (q != r ==> m2[r] == m1[r].(parent := z) && m2[q] == m1[q].(left := ch))
    requires Off(m2, m', {z, l}) && m'[z] == m2[z].(parent := m2[x].parent, color := m2[x].color, left := l)
    requires m'[l] == m2[l].(parent := z)
    ensures Spliced(m, m', x, z, l, r, ch, p)
  {
  }

  method Splice(node: Node, successor: Node, root: Root, ghost s: set<Node>)
    returns (child: Node?, parent: Node, color: Color)
    requires Ready(Snap(s), node, successor, node.left, node.right, successor.parent, successor.right, node.parent)
    modifies root, s
    ensures child == old(successor.right) && color == old(successor.color)
    ensures parent == old(if successor.parent == node then successor else successor.parent)
    ensures root.node == old(if node.parent == null then successor else root.node)
    ensures Spliced(old(Snap(s)), Snap(s), node, successor, old(node.left), old(node.right), child, old(node.parent))
  {
    ghost var m, p, l, r := Snap(s), node.parent, node.left, node.right;
    PointParent(node, successor, root, s);
    ghost var m1 := Snap(s);
    assert m1[node] == m[node] && m1[successor] == m[successor];
    child := successor.right;
    parent := successor.parent;
    color := successor.color;
    if parent == node {
      parent := successor;
    } else {
      Detach(node, successor, child, parent, s);
    }
    ghost var m2 := Snap(s);
    assert m2[node] == m[node];
    TakePlace(node, successor, s);
    SpliceSteps(m, m1, m2, Snap(s), node, successor, l, r, child, p);
  }

  /** The node above the successor's place carries the successor's colour debt. */
  lemma {:induction false} NearFocus(m: Cells, m': Cells, root: Node?, root': Node?, l: Tree, x: Node, k: Color,
                                     z: Node, kz: Color, sr: Tree, c: Ctx)
    requires Focus(m, root, T(l, x, k, T(Leaf, z, kz, sr)), c) && l.T?
    requires Spliced(m, m', x, z, l.node, z, Ptr(sr), Par(c)) && root' == if c.Top? then z else root
    ensures Focus(m', root', T(l, z, k, sr), c)
  {
    RightHeavy(m, root, l, x, k, Leaf, z, kz, sr, c);
    var touched := {z, l.node} + Own(Par(c));
    assert l.node in Set(l);
    Linked(m, root, c, x);
    FrameRoot(m, m', touched, l, x, z);
    Frame(m, m', touched, sr, z);
    CFrameHole(m, m', touched, root, root', c, x, z);
  }

  /** The erased node's own place, now held by `z`. */
  lemma {:induction false} FarOuter(m: Cells, m': Cells, touched: set<Node>, root: Node?, root': Node?, l: Tree,
                                    x: Node, k: Color, z: Node, r: Node, c: Ctx)
    requires CRep(m, root, InR(l, x, k, c), r) && l.T? && CDisj(InR(l, x, k, c)) && Off(m, m', touched)
    requires forall n <- touched :: n in CSet(InR(l, x, k, c)) ==> n == l.node || n == Par(c)
    requires z in m' && m'[z] == Cell(Par(c), l.node, r, k) && m'[l.node] == m[l.node].(parent := z)
    requires !c.Top? ==> c.node in m && m'[c.node] == Relink(m[c.node], x, z)
    requires root' == if c.Top? then z else root
    ensures CRep(m', root', InR(l, z, k, c), r)
  {
    assert l.node in Set(l);
    Linked(m, root, c, x);
    FrameRoot(m, m', touched, l, x, z);
    CFrameHole(m, m', touched, root, root', c, x, z);
  }

  lemma {:induction false} FarApart(l: Tree, x: Node, k: Color, z: Node, kz: Color, sr: Tree, inner: Ctx, c: Ctx)
    requires l.T? && !inner.Top? && Disj(T(Leaf, z, kz, sr)) && CDisj(Append(inner, InR(l, x, k, c)))
    requires Set(T(Leaf, z, kz, sr)) !! CSet(Append(inner, InR(l, x, k, c)))
    ensures Disj(sr) && CDisj(inner) && CDisj(InR(l, x, k, c)) && CDisj(Append(inner, InR(l, z, k, c)))
    ensures Set(sr) !! CSet(Append(inner, InR(l, z, k, c)))
    ensures inner.node != x && inner.node != z && Last(inner) != z
    ensures forall n <- {z, l.node, Last(inner), inner.node} + Own(Ptr(sr)) + Own(Par(c)) ::
      && (n in CSet(inner) ==> n == inner.node || n == Last(inner))
      && (n in CSet(InR(l, x, k, c)) ==> n == l.node || n == Par(c))
      && (n in Set(sr) ==> n == Ptr(sr))
  {
    AppendSets(inner, InR(l, x, k, c));
    AppendSets(inner, InR(l, z, k, c));
    LastIn(inner);
    assert inner.node in CSet(inner) && l.node in Set(l) && Own(Ptr(sr)) <= Set(sr) && Own(Par(c)) <= CSet(c);
  }

  lemma {:induction false} FarFocus(m: Cells, m': Cells, root: Node?, root': Node?, l: Tree, x: Node, k: Color, z: Node,
                                    kz: Color, sr: Tree, inner: Ctx, c: Ctx)
    requires Focus(m, root, T(Leaf, z, kz, sr), Append(inner, InR(l, x, k, c))) && l.T? && !inner.Top?
    requires Leftward(inner)
    requires Spliced(m, m', x, z, l.node, Last(inner), Ptr(sr), Par(c)) && root' == if c.Top? then z else root
    ensures Focus(m', root', sr, Append(inner, InR(l, z, k, c)))
  {
    var outer, outer' := InR(l, x, k, c), InR(l, z, k, c);
    var r, ch := Last(inner), Ptr(sr);
    var touched := {z, l.node, r, inner.node} + Own(ch) + Own(Par(c));
    FarApart(l, x, k, z, kz, sr, inner, c);
    AppendLast(m, root, inner, outer, z);
    assert Par(Append(inner, outer)) == inner.node == Par(Append(inner, outer'));
    assert m[z] == Cell(inner.node, null, ch, kz) && Rep(m, sr, z);
    FrameRoot(m, m', touched, sr, z, inner.node);
    FarOuter(m, m', touched, root, root', l, x, k, z, r, c);
    PathSwap(m, m', touched, root, root', inner, outer, outer', z, ch);
  }

  lemma {:induction false} NearReady(m: Cells, root: Node?, l: Tree, x: Node, k: Color, z: Node, kz: Color, sr: Tree,
                                     c: Ctx)
    requires Focus(m, root, T(l, x, k, T(Leaf, z, kz, sr)), c) && l.T?
    ensures x in m && m[x].right == z && Ready(m, x, z, l.node, z, x, Ptr(sr), Par(c))
  {
    RightHeavy(m, root, l, x, k, Leaf, z, kz, sr, c);
    assert l.node in Set(l) && Own(Ptr(sr)) <= Set(sr);
    Linked(m, root, c, x);
  }

  lemma {:induction false} FarReady(m: Cells, root: Node?, l: Tree, x: Node, k: Color, z: Node, kz: Color, sr: Tree,
                                    inner: Ctx, c: Ctx)
    requires Focus(m, root, T(Leaf, z, kz, sr), Append(inner, InR(l, x, k, c))) && l.T? && !inner.Top?
    ensures x in m && m[x].right == Last(inner) && Ready(m, x, z, l.node, Last(inner), inner.node, Ptr(sr), Par(c))
  {
    var outer := InR(l, x, k, c);
    FarApart(l, x, k, z, kz, sr, inner, c);
    AppendSets(inner, outer);
    LastIn(inner);
    AppendLast(m, root, inner, outer, z);
    assert inner.node in CSet(inner) && l.node in Set(l) && Own(Ptr(sr)) <= Set(sr);
    assert Par(Append(inner, outer)) == inner.node;
    assert m[z] == Cell(inner.node, null, Ptr(sr), kz) && Rep(m, sr, z);
    Linked(m, root, c, x);
  }

  /** Colours and heights do not depend on which node stands where. */
  lemma {:induction false} Renamed(inner: Ctx, l: Tree, x: Node, z: Node, k: Color, c: Ctx, h: int)
    requires CBal(Append(inner, InR(l, x, k, c)), h) && CNoRR(Append(inner, InR(l, x, k, c)))
    ensures CBal(Append(inner, InR(l, z, k, c)), h) && CNoRR(Append(inner, InR(l, z, k, c)))
    ensures CBlack(Append(inner, InR(l, x, k, c))) == CBlack(Append(inner, InR(l, z, k, c)))
    decreases inner
  {
    if !inner.Top? {
      Renamed(inner.up, l, x, z, k, c, if inner.color == Black then h + 1 else h);
    }
  }

  lemma {:induction false} LeftwardAll(inner: Ctx, outer: Ctx)
    requires Leftward(inner)
    ensures Before(inner) == [] && Before(Append(inner, outer)) == Before(outer)
    ensures After(Append(inner, outer)) == After(inner) + After(outer)
  {
    if !inner.Top? { LeftwardAll(inner.up, outer); }
  }

  /** The tree once the successor has moved up, before the colours are repaired. */
  lemma {:induction false} DoubleOk(t: Tree, c: Ctx, st: Tree, inner: Ctx) returns (h: int)
    requires RB(Plug(c, t)) && t.T? && st.T? && st.left.Leaf? && t.right == Plug(inner, st) && Leftward(inner)
    ensures var c' := Append(inner, InR(t.left, st.node, t.color, c));
      if st.color == Black then Short(st.right, c', h - 1) else Fits(st.right, c', h)
  {
    var outer, outer' := InR(t.left, t.node, t.color, c), InR(t.left, st.node, t.color, c);
    PlugAppend(inner, outer, st);
    h := Unplug(st, Append(inner, outer));
    Renamed(inner, t.left, t.node, st.node, t.color, c, h);
    SingleOk(st, st.right, Append(inner, outer'), h);
  }

  lemma {:induction false} DoubleOrder(t: Tree, c: Ctx, st: Tree, inner: Ctx)
    requires t.T? && st.T? && st.left.Leaf? && t.right == Plug(inner, st) && Leftward(inner)
    ensures All(st.right, Append(inner, InR(t.left, st.node, t.color, c))) ==
      Before(c) + Inorder(t.left) + Inorder(t.right) + After(c)
  {
    LeftwardAll(inner, InR(t.left, st.node, t.color, c));
    PlugInorder(inner, st);
    assert Inorder(st) == [st.node] + Inorder(st.right);
    assert Inorder(t.right) == [st.node] + Inorder(st.right) + After(inner);
    Regroup(Before(c), Inorder(t.left), [st.node], Inorder(st.right), After(inner), After(c));
  }

  lemma {:induction false} Regroup<A>(b: seq<A>, l: seq<A>, z: seq<A>, r: seq<A>, i: seq<A>, a: seq<A>)
    ensures (b + l + z) + r + (i + a) == b + l + (z + r + i) + a
  {
  }

  /** Walks to the leftmost node of the right subtree. */
  method Successor(node: Node, root: Root, ghost s: set<Node>, ghost t: Tree, ghost c: Ctx)
    returns (z: Node, ghost st: Tree, ghost inner: Ctx)
    requires Whole(Snap(s), root.node, Plug(c, t)) && t.T? && t.node == node && t.right.T?
    ensures st.T? && st.node == z && st.left.Leaf? && Leftward(inner) && t.right == Plug(inner, st)
    ensures Whole(Snap(s), root.node, Plug(Append(inner, InR(t.left, node, t.color, c)), st))
    ensures inner.Top? ==> st == t.right
    ensures Inorder(t.right) != [] && z == Inorder(t.right)[0]
    ensures Whole(Snap(s), root.node, Plug(c, t))
  {
    ghost var outer := InR(t.left, node, t.color, c);
    Peek(s, root, t.left, node, t.color, t.right, c);
    z := node.right;
    st, inner := t.right, Top;
    Peek(s, root, st.left, z, st.color, st.right, outer);
    while z.left != null
      invariant z in s && st.T? && st.node == z && Leftward(inner) && t.right == Plug(inner, st)
      invariant inner.Top? ==> st == t.right
      invariant z.left == Ptr(st.left) && (z.left != null ==> z.left in s)
      invariant Whole(Snap(s), root.node, Plug(Append(inner, outer), st))
      decreases st
    {
      z := z.left;
      inner, st := InL(st.node, st.color, st.right, inner), st.left;
      Peek(s, root, st.left, z, st.color, st.right, Append(inner, outer));
    }
    LeftmostFirst(inner, st);
  }

  /** Puts the successor in the place of `node`. */
  method SpliceIn(node: Node, z: Node, root: Root, ghost s: set<Node>, ghost t: Tree, ghost c: Ctx, ghost st: Tree,
                  ghost inner: Ctx)
    returns (child: Node?, parent: Node, color: Color)
    requires t.T? && t.left.T? && t.node == node
    requires Whole(Snap(s), root.node, Plug(Append(inner, InR(t.left, node, t.color, c)), st))
    requires st.T? && st.node == z && st.left.Leaf? && Leftward(inner)
    modifies root, s
    ensures var c' := Append(inner, InR(t.left, z, t.color, c));
      Whole(Snap(s), root.node, Plug(c', st.right)) && child == Ptr(st.right) && parent == Par(c') && color == st.color
  {
    ghost var m, r, l, k, sr := Snap(s), root.node, t.left, t.color, st.right;
    ghost var outer, outer' := InR(l, node, k, c), InR(l, z, k, c);
    FocusPlug(m, r, st, Append(inner, outer));
    if inner.Top? {
      assert Plug(outer, st) == Plug(c, T(l, node, k, st));
      FocusPlug(m, r, T(l, node, k, st), c);
      NearReady(m, r, l, node, k, z, st.color, sr, c);
    } else {
      FarReady(m, r, l, node, k, z, st.color, sr, inner, c);
    }
    child, parent, color := Splice(node, z, root, s);
    if inner.Top? {
      NearFocus(m, Snap(s), r, root.node, l, node, k, z, st.color, sr, c);
      FocusPlug(Snap(s), root.node, T(l, z, k, sr), c);
    } else {
      FarFocus(m, Snap(s), r, root.node, l, node, k, z, st.color, sr, inner, c);
      FocusPlug(Snap(s), root.node, sr, Append(inner, outer'));
    }
  }

  /** `rb_erase` */
  method Erase(node: Node, root: Root, ghost s: set<Node>, ghost t: Tree, ghost c: Ctx) returns (ghost w: Tree)
    requires Whole(Snap(s), root.node, Plug(c, t)) && RB(Plug(c, t)) && t.T? && t.node == node
    modifies root, s
    ensures Whole(Snap(s), root.node, w) && RB(w)
    ensures Inorder(w) == Before(c) + Inorder(t.left) + Inorder(t.right) + After(c)
  {
    Peek(s, root, t.left, node, t.color, t.right, c);
    if node.left == null || node.right == null {
      ghost var h := Unplug(t, c);
      w := EraseSingle(node, root, s, t, c, h);
    } else {
      ghost var st, inner;
      var z;
      z, st, inner := Successor(node, root, s, t, c);
      ghost var h := DoubleOk(t, c, st, inner);
      DoubleOrder(t, c, st, inner);
      var child, parent, color := SpliceIn(node, z, root, s, t, c, st, inner);
      ghost var c' := Append(inner, InR(t.left, z, t.color, c));
      if color == Black {
        w := EraseColor(child, parent, root, s, st.right, c', h - 1);
      } else {
        w := Plug(c', st.right);
        FitsOk(st.right, c', h);
      }
    }
  }

  // ---------- walking the tree ----------

  lemma {:induction false} LeftmostFirst(inner: Ctx, st: Tree)
    requires Leftward(inner) && st.T? && st.left.Leaf?
    ensures Inorder(Plug(inner, st)) == [st.node] + Inorder(st.right) + After(inner)
  {
    LeftwardAll(inner, Top);
    PlugInorder(inner, st);
    assert Inorder(st) == [st.node] + Inorder(st.right);
  }

  /** `rb_first` */
  method First(root: Root, ghost w: Tree) returns (n: Node?)
    requires Whole(Snap(Set(w)), root.node, w)
    ensures if w.Leaf? then n == null else n == Inorder(w)[0]
  {
    ghost var s := Set(w);
    n := root.node;
    if n == null { return; }
    ghost var st, inner := w, Top;
    Peek(s, root, w.left, n, w.color, w.right, Top);
    while n.left != null
      invariant n != null && n in s && st.T? && st.node == n && Leftward(inner) && w == Plug(inner, st)
      invariant Whole(Snap(s), root.node, Plug(inner, st))
      invariant n.left == Ptr(st.left) && (n.left != null ==> n.left in s)
      decreases st
    {
      n := n.left;
      assert Plug(InL(st.node, st.color, st.right, inner), st.left) == Plug(inner, st);
      inner, st := InL(st.node, st.color, st.right, inner), st.left;
      assert st == T(st.left, n, st.color, st.right);
      Peek(s, root, st.left, n, st.color, st.right, inner);
    }
    LeftmostFirst(inner, st);
  }

  /** `rb_next`: the node that follows in order, or null after the last one. */
  method Next(node: Node, root: Root, ghost s: set<Node>, ghost t: Tree, ghost c: Ctx) returns (n: Node?)
    requires Whole(Snap(s), root.node, Plug(c, t)) && t.T? && t.node == node
    ensures Whole(Snap(s), root.node, Plug(c, t))
    ensures var rest := Inorder(t.right) + After(c); if rest == [] then n == null else n == rest[0]
  {
    Peek(s, root, t.left, node, t.color, t.right, c);
    if node.right != null {
      ghost var st, inner;
      n, st, inner := Successor(node, root, s, t, c);
      LeftmostFirst(inner, st);
      return;
    }
    ghost var u, d := t, c;
    var x := node;
    n := x.parent;
    AtTop(s, root, u, d);
    while n != null && x == n.right
      invariant x in s && u.T? && u.node == x && n == Par(d) && (n != null ==> n in s)
      invariant Whole(Snap(s), root.node, Plug(d, u)) && After(d) == After(c)
      decreases d
    {
      ghost var p := Up(u, d);
      Peek(s, root, p.left, p.node, p.color, p.right, d.up);
      x := n;
      u, d := p, d.up;
      AtTop(s, root, u, d);
      n := x.parent;
    }
    if n != null {
      ghost var p := Up(u, d);
      Peek(s, root, p.left, p.node, p.color, p.right, d.up);
    }
  }
}
