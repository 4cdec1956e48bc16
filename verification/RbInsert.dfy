/** `rb_link_node` and `rb_insert_color` (code/lib/kernel/rbtree.h, code/lib/kernel/rbtree.c). */
module RbInsert {
  import opened RbShape
  import opened RbTree

  /** The red subtree `t` breaks no rule, except that the node above it may be red too. */
  ghost predicate RedFocus(t: Tree, c: Ctx, h: int) {
    IsRed(t) && NoRR(t) && Bal(t, h) && CBal(c, h) && CNoRR(c)
  }

  lemma {:induction false} UpOk(t: Tree, c: Ctx, h: int)
    requires RedFocus(t, c, h) && !c.Top? && c.color == Red
    ensures var p := Up(t, c);
      Bal(p, h) && NoRR(p.left) && NoRR(p.right) && CBal(c.up, h) && CNoRR(c.up) && CBlack(c.up)
    ensures All(Up(t, c), c.up) == All(t, c)
    ensures Plug(c.up, Up(t, c)) == Plug(c, t)
  {
    AllUp(t, c);
  }

  /** Red parent and red uncle turn black, the grandparent turns red. */
  lemma {:induction false} PushedOk(p: Tree, g: Ctx, h: int, t': Tree)
    requires p.T? && Bal(p, h) && NoRR(p.left) && NoRR(p.right) && CBal(g, h) && CNoRR(g) && CBlack(g) && p.color == Red
    requires g.InL? ==> IsRed(g.right) && t' == T(p.(color := Black), g.node, Red, g.right.(color := Black))
    requires g.InR? ==> IsRed(g.left) && t' == T(g.left.(color := Black), g.node, Red, p.(color := Black))
    ensures RedFocus(t', g.up, h + 1) && All(t', g.up) == All(p, g)
  {
    AllUp(p, g);
    assert Inorder(p.(color := Black)) == Inorder(p);
    if g.InL? {
      assert Inorder(g.right.(color := Black)) == Inorder(g.right);
    } else {
      assert Inorder(g.left.(color := Black)) == Inorder(g.left);
    }
  }

  /** After the last rotation of the left case: the old parent is black above two reds. */
  lemma {:induction false} TurnedLeftOk(t: Tree, p: Tree, g: Ctx, h: int)
    requires g.InL? && g.color == Black && !IsRed(g.right) && CBal(g, h) && CNoRR(g)
    requires p.T? && p.left == t && IsRed(t) && p.color == Red && Bal(p, h) && NoRR(t) && NoRR(p.right)
    requires !IsRed(p.right)
    ensures var c' := InL(p.node, Black, T(p.right, g.node, Red, g.right), g.up);
            RedFocus(t, c', h) && All(t, c') == All(p, g)
            && Plug(c', t) == Plug(g.up, T(t, p.node, Black, T(p.right, g.node, Red, g.right)))
  {
    var u := T(p.right, g.node, Red, g.right);
    var c' := InL(p.node, Black, u, g.up);
    assert Bal(u, h) && NoRR(u);
    assert Inorder(u) == Inorder(p.right) + [g.node] + Inorder(g.right);
    assert Inorder(p) == Inorder(t) + [p.node] + Inorder(p.right);
    RegroupLeft(Before(g.up), Inorder(t), [p.node], Inorder(p.right), [g.node], Inorder(g.right), After(g.up));
  }

  lemma {:induction false} TurnedRightOk(t: Tree, p: Tree, g: Ctx, h: int)
    requires g.InR? && g.color == Black && !IsRed(g.left) && CBal(g, h) && CNoRR(g)
    requires p.T? && p.right == t && IsRed(t) && p.color == Red && Bal(p, h) && NoRR(t) && NoRR(p.left)
    requires !IsRed(p.left)
    ensures var c' := InR(T(g.left, g.node, Red, p.left), p.node, Black, g.up);
            RedFocus(t, c', h) && All(t, c') == All(p, g)
            && Plug(c', t) == Plug(g.up, T(T(g.left, g.node, Red, p.left), p.node, Black, t))
  {
    var u := T(g.left, g.node, Red, p.left);
    var c' := InR(u, p.node, Black, g.up);
    assert Bal(u, h) && NoRR(u);
    assert Inorder(u) == Inorder(g.left) + [g.node] + Inorder(p.left);
    assert Inorder(p) == Inorder(p.left) + [p.node] + Inorder(t);
    RegroupRight(Before(g.up), Inorder(g.left), [g.node], Inorder(p.left), [p.node], Inorder(t), After(g.up));
  }

  lemma {:induction false} RegroupLeft<A>(b: seq<A>, t: seq<A>, p: seq<A>, r: seq<A>, g: seq<A>, q: seq<A>, a: seq<A>)
    ensures b + t + (p + (r + g + q) + a) == b + (t + p + r) + (g + q + a)
  {
  }

  lemma {:induction false} RegroupRight<A>(b: seq<A>, l: seq<A>, g: seq<A>, m: seq<A>, p: seq<A>, t: seq<A>, a: seq<A>)
    ensures (b + (l + g + m) + p) + t + a == (b + l + g) + (m + p + t) + a
  {
  }

  lemma {:induction false} PeekUncle(s: set<Node>, root: Root, p: Tree, g: Ctx)
    requires Whole(Snap(s), root.node, Plug(g, p)) && !g.Top?
    ensures g.node in s
    ensures g.InL? ==>
      g.node.right == Ptr(g.right) && (g.right.T? ==> g.right.node in s && g.right.node.color == g.right.color)
    ensures g.InR? ==>
      g.node.left == Ptr(g.left) && (g.left.T? ==> g.left.node in s && g.left.node.color == g.left.color)
  {
    var u := Up(p, g);
    Peek(s, root, u.left, g.node, g.color, u.right, g.up);
    PeekChildren(s, root, u.left, g.node, g.color, u.right, g.up);
  }

  method RecolorLeft(parent: Node, uncle: Node, gparent: Node, root: Root, ghost s: set<Node>, ghost p: Tree,
                     ghost g: Ctx, ghost h: int)
    returns (ghost t': Tree, ghost c': Ctx, ghost h': int)
    requires Whole(Snap(s), root.node, Plug(g, p))
    requires p.T? && Bal(p, h) && NoRR(p.left) && NoRR(p.right) && CBal(g, h) && CNoRR(g) && CBlack(g) && p.color == Red
    requires p.node == parent && g.InL? && g.node == gparent && IsRed(g.right) && g.right.node == uncle
    modifies s
    ensures Whole(Snap(s), root.node, Plug(c', t')) && RedFocus(t', c', h') && t'.node == gparent
    ensures All(t', c') == All(p, g) && c' == g.up
  {
    ghost var u := g.right;
    ghost var p', u' := p.(color := Black), u.(color := Black);
    SetColor(parent, Black, root, s, p.left, Red, p.right, g);
    assert Plug(g, p') == Plug(InR(p', gparent, Black, g.up), u);
    SetColor(uncle, Black, root, s, u.left, Red, u.right, InR(p', gparent, Black, g.up));
    SetColor(gparent, Red, root, s, p', Black, u', g.up);
    t', c', h' := T(p', gparent, Red, u'), g.up, h + 1;
    PushedOk(p, g, h, t');
  }

  method TurnLeft(node: Node, parent: Node, gparent: Node, root: Root, ghost s: set<Node>, ghost t: Tree, ghost c: Ctx,
                  ghost h: int)
    returns (node': Node, ghost t': Tree, ghost c': Ctx)
    requires Whole(Snap(s), root.node, Plug(c, t)) && RedFocus(t, c, h) && t.node == node
    requires !c.Top? && c.node == parent && c.color == Red && c.up.InL? && c.up.node == gparent && !IsRed(c.up.right)
    modifies root, s
    ensures Whole(Snap(s), root.node, Plug(c', t')) && RedFocus(t', c', h) && t'.node == node'
    ensures All(t', c') == All(t, c) && Depth(c') < Depth(c)
  {
    ghost var p, g := Up(t, c), c.up;
    UpOk(t, c, h);
    Peek(s, root, p.left, parent, Red, p.right, g);
    node' := node;
    var parent' := parent;
    if node == parent.right {
      assert c.InR?;
      RotL(parent, root, s, c.left, Red, t.left, node, Red, t.right, g);
      node', parent' := parent, node;
      p := T(T(c.left, parent, Red, t.left), node, Red, t.right);
      assert Bal(T(c.left, parent, Red, t.left), h);
      InorderRotated(c.left, parent, Red, Red, t.left, node, Red, Red, t.right);
    }
    SetColor(parent', Black, root, s, p.left, Red, p.right, g);
    ghost var p' := p.(color := Black);
    assert Plug(g, p') == Plug(g.up, T(p', gparent, Black, g.right));
    SetColor(gparent, Red, root, s, p', Black, g.right, g.up);
    RotR(gparent, root, s, p.left, parent', Black, p.right, Red, g.right, g.up);
    TurnedLeftOk(p.left, p, g, h);
    t', c' := p.left, InL(parent', Black, T(p.right, gparent, Red, g.right), g.up);
  }

  /** One turn of the loop when the parent is a left child. */
  method FixLeft(node: Node, parent: Node, gparent: Node, root: Root, ghost s: set<Node>, ghost t: Tree, ghost c: Ctx,
                 ghost h: int)
    returns (node': Node, ghost t': Tree, ghost c': Ctx, ghost h': int)
    requires Whole(Snap(s), root.node, Plug(c, t)) && RedFocus(t, c, h) && t.node == node
    requires !c.Top? && c.node == parent && c.color == Red && c.up.InL? && c.up.node == gparent
    modifies root, s
    ensures Whole(Snap(s), root.node, Plug(c', t')) && RedFocus(t', c', h') && t'.node == node'
    ensures All(t', c') == All(t, c) && Depth(c') < Depth(c)
  {
    ghost var p, g := Up(t, c), c.up;
    UpOk(t, c, h);
    PeekUncle(s, root, p, g);
    var uncle := gparent.right;
    if uncle != null && uncle.color == Red {
      t', c', h' := RecolorLeft(parent, uncle, gparent, root, s, p, g, h);
      node' := gparent;
    } else {
      node', t', c' := TurnLeft(node, parent, gparent, root, s, t, c, h);
      h' := h;
    }
  }

  method RecolorRight(parent: Node, uncle: Node, gparent: Node, root: Root, ghost s: set<Node>, ghost p: Tree,
                      ghost g: Ctx, ghost h: int)
    returns (ghost t': Tree, ghost c': Ctx, ghost h': int)
    requires Whole(Snap(s), root.node, Plug(g, p))
    requires p.T? && Bal(p, h) && NoRR(p.left) && NoRR(p.right) && CBal(g, h) && CNoRR(g) && CBlack(g) && p.color == Red
    requires p.node == parent && g.InR? && g.node == gparent && IsRed(g.left) && g.left.node == uncle
    modifies s
    ensures Whole(Snap(s), root.node, Plug(c', t')) && RedFocus(t', c', h') && t'.node == gparent
    ensures All(t', c') == All(p, g) && c' == g.up
  {
    ghost var u := g.left;
    ghost var p', u' := p.(color := Black), u.(color := Black);
    SetColor(parent, Black, root, s, p.left, Red, p.right, g);
    assert Plug(g, p') == Plug(InL(gparent, Black, p', g.up), u);
    SetColor(uncle, Black, root, s, u.left, Red, u.right, InL(gparent, Black, p', g.up));
    SetColor(gparent, Red, root, s, u', Black, p', g.up);
    t', c', h' := T(u', gparent, Red, p'), g.up, h + 1;
    PushedOk(p, g, h, t');
  }

  method TurnRight(node: Node, parent: Node, gparent: Node, root: Root, ghost s: set<Node>, ghost t: Tree, ghost c: Ctx,
                   ghost h: int)
    returns (node': Node, ghost t': Tree, ghost c': Ctx)
    requires Whole(Snap(s), root.node, Plug(c, t)) && RedFocus(t, c, h) && t.node == node
    requires !c.Top? && c.node == parent && c.color == Red && c.up.InR? && c.up.node == gparent && !IsRed(c.up.left)
    modifies root, s
    ensures Whole(Snap(s), root.node, Plug(c', t')) && RedFocus(t', c', h) && t'.node == node'
    ensures All(t', c') == All(t, c) && Depth(c') < Depth(c)
  {
    ghost var p, g := Up(t, c), c.up;
    UpOk(t, c, h);
    Peek(s, root, p.left, parent, Red, p.right, g);
    node' := node;
    var parent' := parent;
    if node == parent.left {
      assert c.InL?;
      RotR(parent, root, s, t.left, node, Red, t.right, Red, c.right, g);
      node', parent' := parent, node;
      p := T(t.left, node, Red, T(t.right, parent, Red, c.right));
      assert Bal(T(t.right, parent, Red, c.right), h);
      InorderRotated(t.left, node, Red, Red, t.right, parent, Red, Red, c.right);
    }
    SetColor(parent', Black, root, s, p.left, Red, p.right, g);
    ghost var p' := p.(color := Black);
    assert Plug(g, p') == Plug(g.up, T(g.left, gparent, Black, p'));
    SetColor(gparent, Red, root, s, g.left, Black, p', g.up);
    RotL(gparent, root, s, g.left, Red, p.left, parent', Black, p.right, g.up);
    TurnedRightOk(p.right, p, g, h);
    t', c' := p.right, InR(T(g.left, gparent, Red, p.left), parent', Black, g.up);
  }

  /** One turn of the loop when the parent is a right child. */
  method FixRight(node: Node, parent: Node, gparent: Node, root: Root, ghost s: set<Node>, ghost t: Tree, ghost c: Ctx,
                  ghost h: int)
    returns (node': Node, ghost t': Tree, ghost c': Ctx, ghost h': int)
    requires Whole(Snap(s), root.node, Plug(c, t)) && RedFocus(t, c, h) && t.node == node
    requires !c.Top? && c.node == parent && c.color == Red && c.up.InR? && c.up.node == gparent
    modifies root, s
    ensures Whole(Snap(s), root.node, Plug(c', t')) && RedFocus(t', c', h') && t'.node == node'
    ensures All(t', c') == All(t, c) && Depth(c') < Depth(c)
  {
    ghost var p, g := Up(t, c), c.up;
    UpOk(t, c, h);
    PeekUncle(s, root, p, g);
    var uncle := gparent.left;
    if uncle != null && uncle.color == Red {
      t', c', h' := RecolorRight(parent, uncle, gparent, root, s, p, g, h);
      node' := gparent;
    } else {
      node', t', c' := TurnRight(node, parent, gparent, root, s, t, c, h);
      h' := h;
    }
  }

  /** Tells a left parent from a right one. */
  lemma {:induction false} WhichChild(s: set<Node>, root: Root, t: Tree, c: Ctx)
    requires Whole(Snap(s), root.node, Plug(c, t)) && t.T?
    ensures t.node in s && t.node.parent == Par(c) && t.node.color == t.color
    ensures !c.Top? ==> c.node in s && c.node.parent == Par(c.up) && c.node.color == c.color
    ensures !c.Top? ==> (c.node.left == t.node <==> c.InL?)
    ensures !c.Top? && !c.up.Top? ==> c.up.node in s && (c.up.node.left == c.node <==> c.up.InL?)
  {
    Peek(s, root, t.left, t.node, t.color, t.right, c);
    if !c.Top? {
      var p := Up(t, c);
      Peek(s, root, p.left, p.node, p.color, p.right, c.up);
      if !c.up.Top? {
        var g := Up(p, c.up);
        Peek(s, root, g.left, g.node, g.color, g.right, c.up.up);
      }
    }
  }

  /** A tree whose hole may take a red subtree is red-black once its root is black. */
  lemma {:induction false} PlugOk(t: Tree, c: Ctx, h: int)
    requires NoRR(t) && Bal(t, h) && CBal(c, h) && CNoRR(c) && (IsRed(t) ==> c.Top? || c.color == Black)
    ensures var w := Plug(c, t); NoRR(w) && (exists h' :: Bal(w, h')) && (IsRed(w) ==> c.Top?)
    decreases c
  {
    match c
    case Top =>
    case InL(x, k, r, up) => PlugOk(T(t, x, k, r), up, if k == Black then h + 1 else h);
    case InR(l, x, k, up) => PlugOk(T(l, x, k, t), up, if k == Black then h + 1 else h);
  }

  /** `w` with a black root. */
  ghost function Blackened(w: Tree): (b: Tree)
    requires w.T? && NoRR(w) && exists h :: Bal(w, h)
    ensures RB(b) && Inorder(b) == Inorder(w) && Set(b) == Set(w)
  {
    var h :| Bal(w, h);
    var b := w.(color := Black);
    assert Bal(b, if w.color == Red then h + 1 else h);
    b
  }

  lemma {:induction false} PlugT(t: Tree, c: Ctx)
    requires t.T?
    ensures Plug(c, t).T?
    decreases c
  {
    if !c.Top? { PlugT(Up(t, c), c.up); }
  }

  method BlackenRoot(root: Root, ghost s: set<Node>, ghost t: Tree, ghost c: Ctx, ghost h: int) returns (ghost w: Tree)
    requires Whole(Snap(s), root.node, Plug(c, t)) && RedFocus(t, c, h) && (c.Top? || c.color == Black)
    modifies s
    ensures Whole(Snap(s), root.node, w) && RB(w) && Inorder(w) == All(t, c)
  {
    PlugOk(t, c, h);
    PlugInorder(c, t);
    w := Plug(c, t);
    PlugT(t, c);
    Peek(s, root, w.left, w.node, w.color, w.right, Top);
    SetColor(root.node, Black, root, s, w.left, w.color, w.right, Top);
    w := Blackened(w);
  }

  /** `rb_insert_color` */
  method InsertColor(node0: Node, root: Root, ghost s: set<Node>, ghost c0: Ctx) returns (ghost w: Tree)
    requires Whole(Snap(s), root.node, Plug(c0, T(Leaf, node0, Red, Leaf)))
    requires CBal(c0, 0) && CNoRR(c0)
    modifies root, s
    ensures Whole(Snap(s), root.node, w) && RB(w)
    ensures Inorder(w) == Before(c0) + [node0] + After(c0)
  {
    var node := node0;
    ghost var t, c, h := T(Leaf, node0, Red, Leaf), c0, 0;
    assert Inorder(t) == [node0];
    WhichChild(s, root, t, c);
    var parent := node.parent;
    while parent != null && parent.color == Red
      invariant Whole(Snap(s), root.node, Plug(c, t)) && RedFocus(t, c, h) && t.node == node
      invariant node in s && parent == node.parent == Par(c) && (parent != null ==> parent in s)
      invariant All(t, c) == Before(c0) + [node0] + After(c0)
      decreases Depth(c)
    {
      WhichChild(s, root, t, c);
      var gparent := parent.parent;
      if parent == gparent.left {
        node, t, c, h := FixLeft(node, parent, gparent, root, s, t, c, h);
      } else {
        node, t, c, h := FixRight(node, parent, gparent, root, s, t, c, h);
      }
      WhichChild(s, root, t, c);
      parent := node.parent;
    }
    WhichChild(s, root, t, c);
    w := BlackenRoot(root, s, t, c, h);
  }
}
