/** `rb_erase_color` (code/lib/kernel/rbtree.c). */
module RbErase {
  import opened RbShape
  import opened RbTree
  import opened RbInsert

  /** The subtree `t` is one black node short of what its place `c` calls for; nothing else is wrong, except that a red
      `t` may have red neighbours. */
  ghost predicate Short(t: Tree, c: Ctx, h: int) {
    && h >= 0 && Bal(t, h) && CBal(c, h + 1) && CNoRR(c)
    && (t.T? ==> NoRR(t.left) && NoRR(t.right))
  }

  /** `t` sits in `c` as a red-black tree demands. */
  ghost predicate Fits(t: Tree, c: Ctx, h: int) {
    NoRR(t) && Bal(t, h) && CBal(c, h) && CNoRR(c) && (IsRed(t) ==> CBlack(c))
  }

  lemma {:induction false} BalNat(t: Tree, h: int)
    requires Bal(t, h)
    ensures h >= 0
  {
    match t
    case Leaf =>
    case T(l, _, k, _) => BalNat(l, if k == Black then h - 1 else h);
  }

  /** Bounds the turns of the fix-up loop. */
  ghost function Measure(t: Tree, c: Ctx): nat { if IsRed(t) then 0 else Depth(c) + 1 }

  /** Case 1: a red sibling is rotated above the parent. */
  lemma {:induction false} RedSiblingLeftOk(t: Tree, c: Ctx, h: int)
    requires Short(t, c, h) && c.InL? && IsRed(c.right)
    ensures var u := c.right; var c' := InL(c.node, Red, u.left, InL(u.node, Black, u.right, c.up));
      && c.color == Black && u.left.T? && !IsRed(u.left) && Short(t, c', h) && All(t, c') == All(t, c)
      && Plug(c', t) == Plug(c.up, T(T(t, c.node, Red, u.left), u.node, Black, u.right))
  {
    var u := c.right;
    assert Bal(u, h + 1) && NoRR(u);
    assert Bal(u.left, h + 1) && Bal(u.right, h + 1) && NoRR(u.left) && NoRR(u.right);
    assert CNoRR(InL(u.node, Black, u.right, c.up)) && CBal(InL(u.node, Black, u.right, c.up), h + 1);
    var c' := InL(c.node, Red, u.left, InL(u.node, Black, u.right, c.up));
    assert Plug(c', t) == Plug(c'.up, T(t, c.node, Red, u.left));
    assert Before(c') == Before(c'.up) == Before(c.up);
    assert After(c') == [c.node] + Inorder(u.left) + After(c'.up) && After(c'.up) ==
      [u.node] + Inorder(u.right) + After(c.up);
    assert After(c) == [c.node] + Inorder(u) + After(c.up) && Inorder(u) ==
      Inorder(u.left) + [u.node] + Inorder(u.right);
    Nested([c.node], Inorder(u.left), [u.node], Inorder(u.right), After(c.up));
  }

  lemma {:induction false} Nested<A>(c: seq<A>, l: seq<A>, u: seq<A>, r: seq<A>, a: seq<A>)
    ensures c + l + (u + r + a) == c + (l + u + r) + a
  {
  }

  /** Case 2: a black sibling without red children turns red, and the shortage moves up. */
  lemma {:induction false} DarkenLeftOk(t: Tree, c: Ctx, h: int)
    requires Short(t, c, h) && !IsRed(t) && c.InL? && c.right.T? && !IsRed(c.right) && !IsRed(c.right.left)
    requires !IsRed(c.right.right)
    ensures var t' := T(t, c.node, c.color, c.right.(color := Red));
      Short(t', c.up, if c.color == Black then h + 1 else h) && All(t', c.up) == All(t, c)
  {
    AllUp(t, c);
    assert Inorder(c.right.(color := Red)) == Inorder(c.right);
    assert NoRR(t);
  }

  /** Case 4: a black sibling with a red outer child lends a black node. */
  lemma {:induction false} BorrowLeftOk(t: Tree, c: Ctx, h: int)
    requires Short(t, c, h) && !IsRed(t) && c.InL? && c.right.T? && !IsRed(c.right) && IsRed(c.right.right)
    ensures var u := c.right; var t' := T(T(t, c.node, Black, u.left), u.node, c.color, u.right.(color := Black));
      Fits(t', c.up, if c.color == Black then h + 2 else h + 1) && All(t', c.up) == All(t, c)
  {
    AllUp(t, c);
    var u := c.right;
    assert Bal(u, h + 1) && NoRR(u);
    assert Bal(u.right, h) && NoRR(u.right);
    var r := u.right.(color := Black);
    assert Inorder(r) == Inorder(u.right);
    assert Inorder(T(u.left, u.node, Black, r)) == Inorder(u);
    InorderRotated(t, c.node, Black, Black, u.left, u.node, Black, c.color, r);
    var l := T(t, c.node, Black, u.left);
    assert NoRR(t);
    assert Bal(l, h + 1) && NoRR(l);
    assert Bal(r, h + 1) && NoRR(r);
  }

  /** Case 3: a red inner child of the sibling is rotated outwards. */
  lemma {:induction false} InnerLeftOk(t: Tree, c: Ctx, h: int)
    requires Short(t, c, h) && c.InL? && c.right.T? && !IsRed(c.right) && IsRed(c.right.left) && !IsRed(c.right.right)
    ensures var u := c.right; var v := u.left; var u' := T(v.left, v.node, Black, T(v.right, u.node, Red, u.right));
      var c' := c.(right := u'); Short(t, c', h) && All(t, c') == All(t, c)
  {
    var u := c.right;
    var v := u.left;
    assert Bal(u, h + 1) && NoRR(u);
    assert Bal(v, h) && NoRR(v);
    InorderRotated(v.left, v.node, Black, Red, v.right, u.node, Red, Black, u.right);
    var r := T(v.right, u.node, Red, u.right);
    assert Bal(r, h) && NoRR(r);
  }

  /** The sibling of a short left subtree exists, and its fields are what the path says. */
  lemma {:induction false} SiblingLeft(s: set<Node>, root: Root, t: Tree, c: Ctx, h: int)
    requires Whole(Snap(s), root.node, Plug(c, t)) && Short(t, c, h) && c.InL?
    ensures c.right.T? && c.node in s && c.node.right == c.right.node && c.right.node in s
    ensures c.right.node.color == c.right.color
    ensures var u := c.right; var x := u.node; x.left == Ptr(u.left) && x.right == Ptr(u.right)
    ensures var u := c.right; u.left.T? ==> u.left.node in s && u.left.node.color == u.left.color
    ensures var u := c.right; u.right.T? ==> u.right.node in s && u.right.node.color == u.right.color
  {
    var u := c.right;
    assert Bal(u, h + 1);
    assert Plug(c, t) == Plug(c.up, T(t, c.node, c.color, u)) == Plug(InR(t, c.node, c.color, c.up), u);
    Peek(s, root, t, c.node, c.color, u, c.up);
    Peek(s, root, u.left, u.node, u.color, u.right, InR(t, c.node, c.color, c.up));
    PeekChildren(s, root, u.left, u.node, u.color, u.right, InR(t, c.node, c.color, c.up));
  }

  method RedSiblingLeft(parent: Node, sibling: Node, root: Root, ghost s: set<Node>, ghost t: Tree, ghost c: Ctx,
                        ghost h: int)
    returns (ghost c': Ctx)
    requires Whole(Snap(s), root.node, Plug(c, t)) && Short(t, c, h)
    requires c.InL? && c.node == parent && IsRed(c.right) && c.right.node == sibling
    modifies root, s
    ensures Whole(Snap(s), root.node, Plug(c', t)) && Short(t, c', h) && All(t, c') == All(t, c)
    ensures c'.InL? && c'.node == parent && c'.color == Red && c'.right.T? && !IsRed(c'.right)
  {
    ghost var u := c.right;
    RedSiblingLeftOk(t, c, h);
    assert Plug(c, t) == Plug(InR(t, parent, Black, c.up), u);
    SetColor(sibling, Black, root, s, u.left, Red, u.right, InR(t, parent, Black, c.up));
    SetColor(parent, Red, root, s, t, Black, u.(color := Black), c.up);
    RotL(parent, root, s, t, Red, u.left, sibling, Black, u.right, c.up);
    c' := InL(parent, Red, u.left, InL(sibling, Black, u.right, c.up));
  }

  method InnerLeft(parent: Node, sibling: Node, root: Root, ghost s: set<Node>, ghost t: Tree, ghost c: Ctx,
                   ghost h: int)
    returns (sibling': Node, ghost c': Ctx)
    requires Whole(Snap(s), root.node, Plug(c, t)) && Short(t, c, h)
    requires c.InL? && c.node == parent && c.right.T? && !IsRed(c.right) && c.right.node == sibling
    requires IsRed(c.right.left) && !IsRed(c.right.right)
    modifies root, s
    ensures Whole(Snap(s), root.node, Plug(c', t)) && Short(t, c', h) && All(t, c') == All(t, c)
    ensures c'.InL? && c'.node == parent && c'.color == c.color && c'.up == c.up
    ensures c'.right.T? && !IsRed(c'.right) && c'.right.node == sibling' && IsRed(c'.right.right)
  {
    ghost var u, v := c.right, c.right.left;
    ghost var d := InR(t, parent, c.color, c.up);
    assert Plug(c, t) == Plug(d, u) == Plug(InL(sibling, Black, u.right, d), v);
    Peek(s, root, u.left, sibling, Black, u.right, d);
    SetColor(sibling.left, Black, root, s, v.left, Red, v.right, InL(sibling, Black, u.right, d));
    SetColor(sibling, Red, root, s, v.(color := Black), Black, u.right, d);
    RotR(sibling, root, s, v.left, v.node, Black, v.right, Red, u.right, d);
    InnerLeftOk(t, c, h);
    ghost var u' := T(v.left, v.node, Black, T(v.right, sibling, Red, u.right));
    c' := c.(right := u');
    assert Plug(d, u') == Plug(c', t) == Plug(c.up, T(t, parent, c.color, u'));
    Peek(s, root, t, parent, c.color, u', c.up);
    sibling' := parent.right;
  }

  method BorrowLeft(parent: Node, sibling: Node, root: Root, ghost s: set<Node>, ghost t: Tree, ghost c: Ctx,
                    ghost h: int)
    returns (ghost t': Tree, ghost h': int)
    requires Whole(Snap(s), root.node, Plug(c, t)) && Short(t, c, h) && !IsRed(t)
    requires c.InL? && c.node == parent && c.right.T? && !IsRed(c.right) && c.right.node == sibling
    requires IsRed(c.right.right)
    modifies root, s
    ensures Whole(Snap(s), root.node, Plug(c.up, t')) && Fits(t', c.up, h') && All(t', c.up) == All(t, c)
  {
    ghost var u, v, k := c.right, c.right.right, c.color;
    assert Plug(c, t) == Plug(c.up, T(t, parent, k, u)) == Plug(InR(t, parent, k, c.up), u);
    Peek(s, root, t, parent, k, u, c.up);
    SetColor(sibling, parent.color, root, s, u.left, Black, u.right, InR(t, parent, k, c.up));
    ghost var u' := u.(color := k);
    SetColor(parent, Black, root, s, t, k, u', c.up);
    ghost var d := InR(t, parent, Black, c.up);
    assert Plug(c.up, T(t, parent, Black, u')) == Plug(d, u') == Plug(InR(u.left, sibling, k, d), v);
    Peek(s, root, u.left, sibling, k, v, d);
    SetColor(sibling.right, Black, root, s, v.left, Red, v.right, InR(u.left, sibling, k, d));
    ghost var v' := v.(color := Black);
    assert Plug(InR(u.left, sibling, k, d), v') == Plug(d, T(u.left, sibling, k, v')) ==
      Plug(c.up, T(t, parent, Black, T(u.left, sibling, k, v')));
    RotL(parent, root, s, t, Black, u.left, sibling, k, v', c.up);
    BorrowLeftOk(t, c, h);
    t', h' := T(T(t, parent, Black, u.left), sibling, k, v'), if k == Black then h + 2 else h + 1;
  }

  method DarkenLeft(parent: Node, sibling: Node, root: Root, ghost s: set<Node>, ghost t: Tree, ghost c: Ctx,
                    ghost h: int)
    returns (ghost t': Tree, ghost h': int)
    requires Whole(Snap(s), root.node, Plug(c, t)) && Short(t, c, h) && !IsRed(t)
    requires c.InL? && c.node == parent && c.right.T? && !IsRed(c.right) && c.right.node == sibling
    requires !IsRed(c.right.left) && !IsRed(c.right.right)
    modifies s
    ensures Whole(Snap(s), root.node, Plug(c.up, t')) && Short(t', c.up, h') && All(t', c.up) == All(t, c)
    ensures t'.T? && t'.node == parent && t'.color == c.color
  {
    ghost var u, k := c.right, c.color;
    assert Plug(c, t) == Plug(InR(t, parent, k, c.up), u);
    SetColor(sibling, Red, root, s, u.left, Black, u.right, InR(t, parent, k, c.up));
    DarkenLeftOk(t, c, h);
    t', h' := T(t, parent, k, u.(color := Red)), if k == Black then h + 1 else h;
  }

  /** The sibling is black: cases 2 to 4. `done` when the loop breaks. */
  method BlackSiblingLeft(parent: Node, sibling0: Node, root: Root, ghost s: set<Node>, ghost t: Tree, ghost c0: Ctx,
                          ghost h: int)
    returns (done: bool, ghost t': Tree, ghost h': int)
    requires Whole(Snap(s), root.node, Plug(c0, t)) && Short(t, c0, h) && !IsRed(t)
    requires c0.InL? && c0.node == parent && c0.right.T? && !IsRed(c0.right) && c0.right.node == sibling0
    modifies root, s
    ensures Whole(Snap(s), root.node, Plug(c0.up, t')) && All(t', c0.up) == All(t, c0)
    ensures done ==> Fits(t', c0.up, h') && t'.T?
    ensures !done ==> Short(t', c0.up, h') && t'.T? && t'.node == parent && t'.color == c0.color
  {
    ghost var c := c0;
    var sibling := sibling0;
    SiblingLeft(s, root, t, c, h);
    if (sibling.left == null || sibling.left.color == Black)
      && (sibling.right == null || sibling.right.color == Black) {
      t', h' := DarkenLeft(parent, sibling, root, s, t, c, h);
      done := false;
    } else {
      if sibling.right == null || sibling.right.color == Black {
        sibling, c := InnerLeft(parent, sibling, root, s, t, c, h);
      }
      t', h' := BorrowLeft(parent, sibling, root, s, t, c, h);
      done := true;
    }
  }

  /** One turn of the loop for a left child. */
  method FixShortLeft(parent: Node, root: Root, ghost s: set<Node>, ghost t: Tree, ghost c: Ctx, ghost h: int)
    returns (done: bool, ghost t': Tree, ghost c': Ctx, ghost h': int)
    requires Whole(Snap(s), root.node, Plug(c, t)) && Short(t, c, h) && !IsRed(t)
    requires c.InL? && c.node == parent
    modifies root, s
    ensures Whole(Snap(s), root.node, Plug(c', t')) && All(t', c') == All(t, c)
    ensures done ==> Fits(t', c', h') && t'.T?
    ensures !done ==> Short(t', c', h') && Measure(t', c') < Measure(t, c) && t'.T? && t'.node == parent
  {
    ghost var d := c;
    SiblingLeft(s, root, t, c, h);
    var sibling := parent.right;
    if sibling.color == Red {
      d := RedSiblingLeft(parent, sibling, root, s, t, c, h);
      SiblingLeft(s, root, t, d, h);
      sibling := parent.right;
    }
    done, t', h' := BlackSiblingLeft(parent, sibling, root, s, t, d, h);
    c' := d.up;
  }

  // The mirror images.

  lemma {:induction false} RedSiblingRightOk(t: Tree, c: Ctx, h: int)
    requires Short(t, c, h) && c.InR? && IsRed(c.left)
    ensures var u := c.left; var c' := InR(u.right, c.node, Red, InR(u.left, u.node, Black, c.up));
      && c.color == Black && u.right.T? && !IsRed(u.right) && Short(t, c', h) && All(t, c') == All(t, c)
      && Plug(c', t) == Plug(c.up, T(u.left, u.node, Black, T(u.right, c.node, Red, t)))
  {
    var u := c.left;
    assert Bal(u, h + 1) && NoRR(u);
    assert Bal(u.right, h + 1) && Bal(u.left, h + 1) && NoRR(u.right) && NoRR(u.left);
    assert CNoRR(InR(u.left, u.node, Black, c.up)) && CBal(InR(u.left, u.node, Black, c.up), h + 1);
    var c' := InR(u.right, c.node, Red, InR(u.left, u.node, Black, c.up));
    assert Plug(c', t) == Plug(c'.up, T(u.right, c.node, Red, t));
    assert After(c') == After(c'.up) == After(c.up);
    calc {
      Before(c');
      (Before(c.up) + Inorder(u.left) + [u.node]) + Inorder(u.right) + [c.node];
      Before(c.up) + Inorder(u) + [c.node];
      Before(c);
    }
  }

  lemma {:induction false} DarkenRightOk(t: Tree, c: Ctx, h: int)
    requires Short(t, c, h) && !IsRed(t) && c.InR? && c.left.T? && !IsRed(c.left) && !IsRed(c.left.right)
    requires !IsRed(c.left.left)
    ensures var t' := T(c.left.(color := Red), c.node, c.color, t);
      Short(t', c.up, if c.color == Black then h + 1 else h) && All(t', c.up) == All(t, c)
  {
    AllUp(t, c);
    assert Inorder(c.left.(color := Red)) == Inorder(c.left);
    assert NoRR(t);
  }

  lemma {:induction false} BorrowRightOk(t: Tree, c: Ctx, h: int)
    requires Short(t, c, h) && !IsRed(t) && c.InR? && c.left.T? && !IsRed(c.left) && IsRed(c.left.left)
    ensures var u := c.left; var t' := T(u.left.(color := Black), u.node, c.color, T(u.right, c.node, Black, t));
      Fits(t', c.up, if c.color == Black then h + 2 else h + 1) && All(t', c.up) == All(t, c)
  {
    AllUp(t, c);
    var u := c.left;
    assert Bal(u, h + 1) && NoRR(u);
    assert Bal(u.left, h) && NoRR(u.left);
    var r := u.left.(color := Black);
    assert Inorder(r) == Inorder(u.left);
    assert Inorder(T(r, u.node, Black, u.right)) == Inorder(u);
    InorderRotated(r, u.node, c.color, Black, u.right, c.node, Black, Black, t);
    var l := T(u.right, c.node, Black, t);
    assert NoRR(t);
    assert Bal(l, h + 1) && NoRR(l);
    assert Bal(r, h + 1) && NoRR(r);
  }

  lemma {:induction false} InnerRightOk(t: Tree, c: Ctx, h: int)
    requires Short(t, c, h) && c.InR? && c.left.T? && !IsRed(c.left) && IsRed(c.left.right) && !IsRed(c.left.left)
    ensures var u := c.left; var v := u.right; var u' := T(T(u.left, u.node, Red, v.left), v.node, Black, v.right);
      var c' := c.(left := u'); Short(t, c', h) && All(t, c') == All(t, c)
  {
    var u := c.left;
    var v := u.right;
    assert Bal(u, h + 1) && NoRR(u);
    assert Bal(v, h) && NoRR(v);
    InorderRotated(u.left, u.node, Black, Red, v.left, v.node, Red, Black, v.right);
    var r := T(u.left, u.node, Red, v.left);
    assert Bal(r, h) && NoRR(r);
  }

  /** The sibling of a short right subtree exists, and its fields are what the path says. */
  lemma {:induction false} SiblingRight(s: set<Node>, root: Root, t: Tree, c: Ctx, h: int)
    requires Whole(Snap(s), root.node, Plug(c, t)) && Short(t, c, h) && c.InR?
    ensures c.left.T? && c.node in s && c.node.left == c.left.node && c.left.node in s
    ensures c.left.node.color == c.left.color
    ensures var u := c.left; var x := u.node; x.right == Ptr(u.right) && x.left == Ptr(u.left)
    ensures var u := c.left; u.right.T? ==> u.right.node in s && u.right.node.color == u.right.color
    ensures var u := c.left; u.left.T? ==> u.left.node in s && u.left.node.color == u.left.color
  {
    var u := c.left;
    assert Bal(u, h + 1);
    assert Plug(c, t) == Plug(c.up, T(u, c.node, c.color, t)) == Plug(InL(c.node, c.color, t, c.up), u);
    Peek(s, root, u, c.node, c.color, t, c.up);
    Peek(s, root, u.left, u.node, u.color, u.right, InL(c.node, c.color, t, c.up));
    PeekChildren(s, root, u.left, u.node, u.color, u.right, InL(c.node, c.color, t, c.up));
  }

  method RedSiblingRight(parent: Node, sibling: Node, root: Root, ghost s: set<Node>, ghost t: Tree, ghost c: Ctx,
                         ghost h: int)
    returns (ghost c': Ctx)
    requires Whole(Snap(s), root.node, Plug(c, t)) && Short(t, c, h)
    requires c.InR? && c.node == parent && IsRed(c.left) && c.left.node == sibling
    modifies root, s
    ensures Whole(Snap(s), root.node, Plug(c', t)) && Short(t, c', h) && All(t, c') == All(t, c)
    ensures c'.InR? && c'.node == parent && c'.color == Red && c'.left.T? && !IsRed(c'.left)
  {
    ghost var u := c.left;
    RedSiblingRightOk(t, c, h);
    assert Plug(c, t) == Plug(InL(parent, Black, t, c.up), u);
    SetColor(sibling, Black, root, s, u.left, Red, u.right, InL(parent, Black, t, c.up));
    SetColor(parent, Red, root, s, u.(color := Black), Black, t, c.up);
    RotR(parent, root, s, u.left, sibling, Black, u.right, Red, t, c.up);
    c' := InR(u.right, parent, Red, InR(u.left, sibling, Black, c.up));
  }

  method InnerRight(parent: Node, sibling: Node, root: Root, ghost s: set<Node>, ghost t: Tree, ghost c: Ctx,
                    ghost h: int)
    returns (sibling': Node, ghost c': Ctx)
    requires Whole(Snap(s), root.node, Plug(c, t)) && Short(t, c, h)
    requires c.InR? && c.node == parent && c.left.T? && !IsRed(c.left) && c.left.node == sibling
    requires IsRed(c.left.right) && !IsRed(c.left.left)
    modifies root, s
    ensures Whole(Snap(s), root.node, Plug(c', t)) && Short(t, c', h) && All(t, c') == All(t, c)
    ensures c'.InR? && c'.node == parent && c'.color == c.color && c'.up == c.up
    ensures c'.left.T? && !IsRed(c'.left) && c'.left.node == sibling' && IsRed(c'.left.left)
  {
    ghost var u, v := c.left, c.left.right;
    ghost var d := InL(parent, c.color, t, c.up);
    assert Plug(c, t) == Plug(d, u) == Plug(InR(u.left, sibling, Black, d), v);
    Peek(s, root, u.left, sibling, Black, u.right, d);
    SetColor(sibling.right, Black, root, s, v.left, Red, v.right, InR(u.left, sibling, Black, d));
    SetColor(sibling, Red, root, s, u.left, Black, v.(color := Black), d);
    RotL(sibling, root, s, u.left, Red, v.left, v.node, Black, v.right, d);
    InnerRightOk(t, c, h);
    ghost var u' := T(T(u.left, sibling, Red, v.left), v.node, Black, v.right);
    c' := c.(left := u');
    assert Plug(d, u') == Plug(c', t) == Plug(c.up, T(u', parent, c.color, t));
    Peek(s, root, u', parent, c.color, t, c.up);
    sibling' := parent.left;
  }

  method BorrowRight(parent: Node, sibling: Node, root: Root, ghost s: set<Node>, ghost t: Tree, ghost c: Ctx,
                     ghost h: int)
    returns (ghost t': Tree, ghost h': int)
    requires Whole(Snap(s), root.node, Plug(c, t)) && Short(t, c, h) && !IsRed(t)
    requires c.InR? && c.node == parent && c.left.T? && !IsRed(c.left) && c.left.node == sibling && IsRed(c.left.left)
    modifies root, s
    ensures Whole(Snap(s), root.node, Plug(c.up, t')) && Fits(t', c.up, h') && All(t', c.up) == All(t, c)
  {
    ghost var u, v, k := c.left, c.left.left, c.color;
    assert Plug(c, t) == Plug(c.up, T(u, parent, k, t)) == Plug(InL(parent, k, t, c.up), u);
    Peek(s, root, u, parent, k, t, c.up);
    SetColor(sibling, parent.color, root, s, u.left, Black, u.right, InL(parent, k, t, c.up));
    ghost var u' := u.(color := k);
    SetColor(parent, Black, root, s, u', k, t, c.up);
    ghost var d := InL(parent, Black, t, c.up);
    assert Plug(c.up, T(u', parent, Black, t)) == Plug(d, u') == Plug(InL(sibling, k, u.right, d), v);
    Peek(s, root, v, sibling, k, u.right, d);
    SetColor(sibling.left, Black, root, s, v.left, Red, v.right, InL(sibling, k, u.right, d));
    ghost var v' := v.(color := Black);
    assert Plug(InL(sibling, k, u.right, d), v') == Plug(d, T(v', sibling, k, u.right)) ==
      Plug(c.up, T(T(v', sibling, k, u.right), parent, Black, t));
    RotR(parent, root, s, v', sibling, k, u.right, Black, t, c.up);
    BorrowRightOk(t, c, h);
    t', h' := T(v', sibling, k, T(u.right, parent, Black, t)), if k == Black then h + 2 else h + 1;
  }

  method DarkenRight(parent: Node, sibling: Node, root: Root, ghost s: set<Node>, ghost t: Tree, ghost c: Ctx,
                     ghost h: int)
    returns (ghost t': Tree, ghost h': int)
    requires Whole(Snap(s), root.node, Plug(c, t)) && Short(t, c, h) && !IsRed(t)
    requires c.InR? && c.node == parent && c.left.T? && !IsRed(c.left) && c.left.node == sibling
    requires !IsRed(c.left.right) && !IsRed(c.left.left)
    modifies s
    ensures Whole(Snap(s), root.node, Plug(c.up, t')) && Short(t', c.up, h') && All(t', c.up) == All(t, c)
    ensures t'.T? && t'.node == parent && t'.color == c.color
  {
    ghost var u, k := c.left, c.color;
    assert Plug(c, t) == Plug(InL(parent, k, t, c.up), u);
    SetColor(sibling, Red, root, s, u.left, Black, u.right, InL(parent, k, t, c.up));
    DarkenRightOk(t, c, h);
    t', h' := T(u.(color := Red), parent, k, t), if k == Black then h + 1 else h;
  }

  /** The sibling is black: cases 2 to 4. `done` when the loop breaks. */
  method BlackSiblingRight(parent: Node, sibling0: Node, root: Root, ghost s: set<Node>, ghost t: Tree, ghost c0: Ctx,
                           ghost h: int)
    returns (done: bool, ghost t': Tree, ghost h': int)
    requires Whole(Snap(s), root.node, Plug(c0, t)) && Short(t, c0, h) && !IsRed(t)
    requires c0.InR? && c0.node == parent && c0.left.T? && !IsRed(c0.left) && c0.left.node == sibling0
    modifies root, s
    ensures Whole(Snap(s), root.node, Plug(c0.up, t')) && All(t', c0.up) == All(t, c0)
    ensures done ==> Fits(t', c0.up, h') && t'.T?
    ensures !done ==> Short(t', c0.up, h') && t'.T? && t'.node == parent && t'.color == c0.color
  {
    ghost var c := c0;
    var sibling := sibling0;
    SiblingRight(s, root, t, c, h);
    if (sibling.right == null || sibling.right.color == Black)
      && (sibling.left == null || sibling.left.color == Black) {
      t', h' := DarkenRight(parent, sibling, root, s, t, c, h);
      done := false;
    } else {
      if sibling.left == null || sibling.left.color == Black {
        sibling, c := InnerRight(parent, sibling, root, s, t, c, h);
      }
      t', h' := BorrowRight(parent, sibling, root, s, t, c, h);
      done := true;
    }
  }

  /** One turn of the loop for a right child. */
  method FixShortRight(parent: Node, root: Root, ghost s: set<Node>, ghost t: Tree, ghost c: Ctx, ghost h: int)
    returns (done: bool, ghost t': Tree, ghost c': Ctx, ghost h': int)
    requires Whole(Snap(s), root.node, Plug(c, t)) && Short(t, c, h) && !IsRed(t)
    requires c.InR? && c.node == parent
    modifies root, s
    ensures Whole(Snap(s), root.node, Plug(c', t')) && All(t', c') == All(t, c)
    ensures done ==> Fits(t', c', h') && t'.T?
    ensures !done ==> Short(t', c', h') && Measure(t', c') < Measure(t, c) && t'.T? && t'.node == parent
  {
    ghost var d := c;
    SiblingRight(s, root, t, c, h);
    var sibling := parent.left;
    if sibling.color == Red {
      d := RedSiblingRight(parent, sibling, root, s, t, c, h);
      SiblingRight(s, root, t, d, h);
      sibling := parent.left;
    }
    done, t', h' := BlackSiblingRight(parent, sibling, root, s, t, d, h);
    c' := d.up;
  }

  // ---------- the fix-up loop ----------

  lemma {:induction false} FitsOk(t: Tree, c: Ctx, h: int)
    requires Fits(t, c, h)
    ensures RB(Plug(c, t)) && Inorder(Plug(c, t)) == All(t, c)
  {
    PlugOk(t, c, h);
    PlugInorder(c, t);
  }

  /** A short subtree that is red, or fills the whole tree, is put right by a black root. */
  lemma {:induction false} ShortEnds(t: Tree, c: Ctx, h: int)
    requires Short(t, c, h) && (IsRed(t) || c.Top?)
    ensures t.T? ==> exists h' :: Fits(t.(color := Black), c, h')
    ensures t.T? ==> All(t.(color := Black), c) == All(t, c)
    ensures t.Leaf? ==> c.Top? && RB(t)
  {
    if t.T? {
      var b := t.(color := Black);
      assert Inorder(b) == Inorder(t);
      assert Fits(b, c, if IsRed(t) then h + 1 else h);
    } else {
      assert Bal(t, 0);
    }
  }

  /** `root.node` is `Ptr(t)` exactly at the top. */
  lemma {:induction false} AtTop(s: set<Node>, root: Root, t: Tree, c: Ctx)
    requires Whole(Snap(s), root.node, Plug(c, t))
    ensures root.node == Ptr(t) <==> c.Top?
    ensures t.T? ==> t.node in s && t.node.color == t.color && t.node.parent == Par(c)
    ensures !c.Top? ==> c.node in s && (c.node.left == Ptr(t) <==> c.InL? || (t.Leaf? && c.left.Leaf?))
  {
    FocusPlug(Snap(s), root.node, t, c);
    RootInPath(Snap(s), root.node, c, Ptr(t));
    if t.T? { Peek(s, root, t.left, t.node, t.color, t.right, c); }
    if !c.Top? {
      var p := Up(t, c);
      Peek(s, root, p.left, p.node, p.color, p.right, c.up);
    }
  }

  /** The loop has broken off: the root, black already, is coloured black. */
  method BlackenFitting(root: Root, ghost s: set<Node>, ghost t: Tree, ghost c: Ctx, ghost h: int)
    returns (ghost w: Tree)
    requires Whole(Snap(s), root.node, Plug(c, t)) && Fits(t, c, h) && t.T?
    modifies s
    ensures Whole(Snap(s), root.node, w) && RB(w) && Inorder(w) == All(t, c)
  {
    FitsOk(t, c, h);
    PlugT(t, c);
    w := Plug(c, t);
    var node := root.node;
    if node != null {
      SetColor(node, Black, root, s, w.left, w.color, w.right, Top);
    }
  }

  /** `rb_erase_color` */
  method EraseColor(node0: Node?, parent0: Node?, root: Root, ghost s: set<Node>, ghost t0: Tree, ghost c0: Ctx,
                    ghost h0: int)
    returns (ghost w: Tree)
    requires Whole(Snap(s), root.node, Plug(c0, t0)) && Short(t0, c0, h0)
    requires node0 == Ptr(t0) && parent0 == Par(c0)
    modifies root, s
    ensures Whole(Snap(s), root.node, w) && RB(w) && Inorder(w) == All(t0, c0)
  {
    var node, parent := node0, parent0;
    ghost var t, c, h := t0, c0, h0;
    AtTop(s, root, t, c);
    while (node == null || node.color == Black) && node != root.node
      invariant Whole(Snap(s), root.node, Plug(c, t)) && Short(t, c, h) && All(t, c) == All(t0, c0)
      invariant node == Ptr(t) && parent == Par(c) && (node != null ==> node in s && node.color == t.color)
      decreases Measure(t, c)
    {
      AtTop(s, root, t, c);
      if c.InR? { SiblingRight(s, root, t, c, h); }
      var done: bool;
      if parent.left == node {
        done, t, c, h := FixShortLeft(parent, root, s, t, c, h);
      } else {
        done, t, c, h := FixShortRight(parent, root, s, t, c, h);
      }
      if done {
        w := BlackenFitting(root, s, t, c, h);
        return;
      }
      node := parent;
      AtTop(s, root, t, c);
      parent := node.parent;
    }
    AtTop(s, root, t, c);
    ShortEnds(t, c, h);
    w := Plug(c, t);
    if node != null {
      SetColor(node, Black, root, s, t.left, t.color, t.right, c);
      ghost var b := t.(color := Black);
      ghost var h' :| Fits(b, c, h');
      FitsOk(b, c, h');
      w := Plug(c, b);
    }
  }
}
