/** The run queue `cfs_rq` of code/kernel/sched.c: a red-black tree of nodes with a cached leftmost node. */
module CfsQueue {
  import opened RbShape
  import opened RbTree
  import opened RbInsert
  import opened RbRemove
  import opened SchedSpec
  import opened SchedInv
  import opened SchedRuns
  import opened SchedAny

  /** The red-black tree `w` hangs below `root`. */
  ghost predicate TreeAt(root: Root, w: Tree)
    reads root, Set(w)
  {
    Whole(Snap(Set(w)), root.node, w) && RB(w)
  }

  /** `leftmost` is the first node in order, and `nr` the number of nodes. */
  ghost predicate Counted(leftmost: Node?, nr: int, ns: seq<Node>) {
    leftmost == (if ns == [] then null else ns[0]) && nr == |ns|
  }

  lemma {:induction false} SetInorder(t: Tree)
    ensures (forall x <- Set(t) :: x in Inorder(t)) && (forall x <- Inorder(t) :: x in Set(t))
  {
    if t.T? { SetInorder(t.left); SetInorder(t.right); }
  }

  lemma {:induction false} AroundIn(c: Ctx)
    ensures (forall x <- Before(c) :: x in CSet(c)) && (forall x <- After(c) :: x in CSet(c))
  {
    match c
    case Top =>
    case InL(y, _, r, up) =>
      AroundIn(up);
      SetInorder(r);
      forall x | x in After(c) ensures x in CSet(c) {
        assert CSet(c) == {y} + Set(r) + CSet(up);
        assert x == y || x in Inorder(r) || x in After(up);
      }
    case InR(l, y, _, up) =>
      AroundIn(up);
      SetInorder(l);
      forall x | x in Before(c) ensures x in CSet(c) {
        assert CSet(c) == Set(l) + {y} + CSet(up);
        assert x == y || x in Inorder(l) || x in Before(up);
      }
  }

  /** The place of a node of a tree. */
  lemma {:induction false} Locate(w: Tree, c0: Ctx, n: Node) returns (t: Tree, c: Ctx)
    requires n in Set(w)
    ensures Plug(c, t) == Plug(c0, w) && t.T? && t.node == n
    decreases w
  {
    if w.node == n {
      t, c := w, c0;
    } else if n in Set(w.left) {
      t, c := Locate(w.left, InL(w.node, w.color, w.right, c0), n);
    } else {
      t, c := Locate(w.right, InR(w.left, w.node, w.color, c0), n);
    }
  }

  lemma {:induction false} RepIn(m: Cells, t: Tree, p: Node?)
    requires Rep(m, t, p)
    ensures Set(t) <= m.Keys
  {
    if t.T? { RepIn(m, t.left, t.node); RepIn(m, t.right, t.node); }
  }

  lemma {:induction false} CRepIn(m: Cells, root: Node?, c: Ctx, hole: Node?)
    requires CRep(m, root, c, hole)
    ensures CSet(c) <= m.Keys
  {
    match c
    case Top =>
    case InL(x, _, r, up) => RepIn(m, r, x); CRepIn(m, root, up, x);
    case InR(l, x, _, up) => RepIn(m, l, x); CRepIn(m, root, up, x);
  }

  /** A tree needs only its own nodes. */
  lemma {:induction false} RepRestrict(m: Cells, m': Cells, t: Tree, p: Node?)
    requires Rep(m, t, p) && forall x <- Set(t) :: x in m' && (x in m ==> m'[x] == m[x])
    ensures Rep(m', t, p)
  {
    if t.T? { RepRestrict(m, m', t.left, t.node); RepRestrict(m, m', t.right, t.node); }
  }

  /** A sorted queue has one place for a given virtual time. */
  lemma {:induction false} PosUnique(q: seq<Tid>, tasks: map<Tid, Task>, v: nat, p: nat)
    requires (forall i :: 0 <= i < |q| ==> q[i] in tasks) && p <= |q|
    requires forall i :: 0 <= i < p ==> tasks[q[i]].vruntime <= v
    requires forall i :: p <= i < |q| ==> v < tasks[q[i]].vruntime
    ensures Pos(q, tasks, v) == p
    decreases p
  {
    if p > 0 {
      var r := q[1..];
      assert forall i :: 0 <= i < |r| ==> r[i] == q[i + 1];
      PosUnique(r, tasks, v, p - 1);
    }
  }

  lemma {:induction false} WithoutMiddle(a: seq<Tid>, t: Tid, b: seq<Tid>)
    requires t !in a
    ensures Without(a + [t] + b, t) == a + b
    decreases |a|
  {
    var q := a + [t] + b;
    if a == [] {
      assert q[0] == t && q[1..] == b;
    } else {
      WithoutMiddle(a[1..], t, b);
      assert q[0] == a[0] && q[1..] == a[1..] + [t] + b;
      assert [a[0]] + (a[1..] + b) == a + b;
    }
  }

  /** `rb_link_node` puts a red leaf in the hole. */
  lemma {:induction false} LinkedFocus(m: Cells, m': Cells, root: Node?, root': Node?, n: Node, c: Ctx)
    requires Focus(m, root, Leaf, c) && n !in CSet(c) && n in m && Off(m, m', {n} + Own(Par(c)))
    requires m'[n] == Cell(Par(c), null, null, Red) && root' == if c.Top? then n else root
    requires c.InL? ==> c.node in m && m'[c.node] == m[c.node].(left := n)
    requires c.InR? ==> c.node in m && m'[c.node] == m[c.node].(right := n)
    ensures Focus(m', root', T(Leaf, n, Red, Leaf), c)
  {
    assert Own(Par(c)) <= CSet(c);
    CFrameHole(m, m', {n} + Own(Par(c)), root, root', c, null, n);
  }

  lemma {:induction false} AllAround(t: Tree, c: Ctx)
    requires t.T?
    ensures All(t.left, InL(t.node, t.color, t.right, c)) == All(t, c) == All(t.right, InR(t.left, t.node, t.color, c))
    ensures var m := |Before(c)| + |Inorder(t.left)|; m < |All(t, c)| && All(t, c)[m] == t.node
    ensures |All(t, c)| == |Before(c)| + |Inorder(t.left)| + 1 + |Inorder(t.right)| + |After(c)|
  {
    AllUp(t.left, InL(t.node, t.color, t.right, c));
    AllUp(t.right, InR(t.left, t.node, t.color, c));
  }

  lemma {:induction false} AllLeaf(c: Ctx)
    ensures All(Leaf, c) == Before(c) + After(c)
  {
  }

  lemma {:induction false} PeekAt(root: Root, w: Tree, t: Tree, c: Ctx)
    requires Whole(Snap(Set(w)), root.node, w) && Plug(c, t) == w && t.T?
    ensures t.node.left == Ptr(t.left) && t.node.right == Ptr(t.right)
  {
    Peek(Set(w), root, t.left, t.node, t.color, t.right, c);
  }

  /** Up to `lo` the queue is at most as late as `v`, from `hi` on it is later. */
  ghost predicate Split(q: seq<Tid>, tasks: map<Tid, Task>, v: nat, lo: int, hi: int) {
    && 0 <= lo <= hi <= |q|
    && (forall i :: 0 <= i < |q| ==> q[i] in tasks)
    && (forall i :: 0 <= i < lo ==> tasks[q[i]].vruntime <= v)
    && (forall i :: hi <= i < |q| ==> v < tasks[q[i]].vruntime)
  }

  lemma {:induction false} SplitStep(q: seq<Tid>, tasks: map<Tid, Task>, v: nat, lo: int, m: int, hi: int)
    requires Split(q, tasks, v, lo, hi) && Sorted(q, tasks) && lo <= m < hi
    ensures if v < tasks[q[m]].vruntime then Split(q, tasks, v, lo, m) else Split(q, tasks, v, m + 1, hi)
  {
  }

  /** The hole at `c` is where a thread of virtual time `v` may still go. */
  ghost predicate Heading(w: Tree, t: Tree, c: Ctx, tasks: map<Tid, Task>, v: nat) {
    && Plug(c, t) == w && Inorder(w) == All(t, c)
    && (forall i :: 0 <= i < |Inorder(w)| ==> Inorder(w)[i] in tasks)
    && (Sorted(Inorder(w), tasks) ==> Split(Inorder(w), tasks, v, |Before(c)|, |Inorder(w)| - |After(c)|))
  }

  lemma {:induction false} DownStep(w: Tree, t: Tree, c: Ctx, tasks: map<Tid, Task>, v: nat)
    requires Heading(w, t, c, tasks, v) && t.T?
    ensures t.node in tasks
    ensures if v < tasks[t.node].vruntime then Heading(w, t.left, InL(t.node, t.color, t.right, c), tasks, v)
            else Heading(w, t.right, InR(t.left, t.node, t.color, c), tasks, v)
    ensures Before(InR(t.left, t.node, t.color, c)) != [] && Before(InL(t.node, t.color, t.right, c)) == Before(c)
  {
    AllAround(t, c);
    var q := Inorder(w);
    var m := |Before(c)| + |Inorder(t.left)|;
    assert q[m] == t.node;
    if Sorted(q, tasks) { SplitStep(q, tasks, v, |Before(c)|, m, |q| - |After(c)|); }
  }

  /**
   The walk in `enqueue_task`: down to a hole, which in a queue in order is where a thread of virtual time `v` goes.
   `first` when no step went right, so that the hole is before all nodes.
   */
  method Descend(root: Root, tasks: map<Tid, Task>, v: nat, ghost w: Tree)
    returns (parent: Node?, goLeft: bool, first: bool, ghost c: Ctx)
    requires Whole(Snap(Set(w)), root.node, w) && forall i :: 0 <= i < |Inorder(w)| ==> Inorder(w)[i] in tasks
    ensures Whole(Snap(Set(w)), root.node, w)
    ensures Plug(c, Leaf) == w && parent == Par(c) && (!c.Top? ==> goLeft == c.InL?) && (first <==> Before(c) == [])
    ensures Inorder(w) == Before(c) + After(c)
    ensures Sorted(Inorder(w), tasks) ==> Split(Inorder(w), tasks, v, |Before(c)|, |Before(c)|)
    ensures Sorted(Inorder(w), tasks) ==> (first <==> Earliest(Inorder(w), tasks, v))
  {
    ghost var t := w;
    var link := root.node;
    parent, goLeft, first, c := null, false, true, Top;
    assert All(t, c) == Inorder(w);
    while link != null
      invariant Whole(Snap(Set(w)), root.node, w) && link == Ptr(t) && Heading(w, t, c, tasks, v)
      invariant parent == Par(c) && (!c.Top? ==> goLeft == c.InL?) && (first <==> Before(c) == [])
      decreases t
    {
      DownStep(w, t, c, tasks, v);
      PeekAt(root, w, t, c);
      parent := link;
      if v < tasks[parent].vruntime {
        link, goLeft := parent.left, true;
        t, c := t.left, InL(t.node, t.color, t.right, c);
      } else {
        link, goLeft, first := parent.right, false, false;
        t, c := t.right, InR(t.left, t.node, t.color, c);
      }
    }
    AllLeaf(c);
    assert |Inorder(w)| - |After(c)| == |Before(c)|;
    if Sorted(Inorder(w), tasks) { FirstPlace(Inorder(w), tasks, v, |Before(c)|); }
  }

  /** Virtual time `v` lies before that of all queued threads. */
  predicate Earliest(q: seq<Tid>, tasks: map<Tid, Task>, v: nat) {
    forall i :: 0 <= i < |q| ==> q[i] in tasks && v < tasks[q[i]].vruntime
  }

  /** A thread goes first exactly when it is before all others. */
  lemma {:induction false} FirstPlace(q: seq<Tid>, tasks: map<Tid, Task>, v: nat, p: nat)
    requires Split(q, tasks, v, p, p)
    ensures p == 0 <==> Earliest(q, tasks, v)
  {
    if p > 0 {
      assert tasks[q[0]].vruntime <= v;
    }
  }

  /** `rb_link_node`, writing through the link that the walk ended at. */
  method LinkNode(n: Node, parent: Node?, goLeft: bool, root: Root, ghost s: set<Node>)
    requires n in s && (parent != null ==> parent in s && parent != n)
    modifies root, s
    ensures root.node == if parent == null then n else old(root.node)
    ensures var m, m' := old(Snap(s)), Snap(s);
      && Off(m, m', {n} + Own(parent)) && m'[n] == Cell(parent, null, null, Red)
      && (parent != null ==> m'[parent] == if goLeft then m[parent].(left := n) else m[parent].(right := n))
  {
    n.parent := parent;
    n.color := Red;
    n.left, n.right := null, null;
    if parent == null {
      root.node := n;
    } else if goLeft {
      parent.left := n;
    } else {
      parent.right := n;
    }
  }

  /** Puts a node that is not in the tree into the hole of `c`. */
  method LinkIn(n: Node, parent: Node?, goLeft: bool, root: Root, ghost w: Tree, ghost c: Ctx)
    requires Whole(Snap(Set(w)), root.node, w) && Plug(c, Leaf) == w && parent == Par(c)
    requires !c.Top? ==> goLeft == c.InL?
    requires n !in Set(w)
    modifies root, Set(w), n
    ensures Whole(Snap(Set(w) + {n}), root.node, Plug(c, T(Leaf, n, Red, Leaf)))
  {
    ghost var s := Set(w) + {n};
    ghost var m, r := Snap(s), root.node;
    RepRestrict(Snap(Set(w)), m, w, null);
    FocusPlug(Snap(Set(w)), r, Leaf, c);
    FocusPlug(m, r, Leaf, c);
    CRepIn(Snap(Set(w)), r, c, null);
    assert Own(Par(c)) <= CSet(c);
    LinkNode(n, parent, goLeft, root, s);
    LinkedFocus(m, Snap(s), r, root.node, n, c);
    FocusPlug(Snap(s), root.node, T(Leaf, n, Red, Leaf), c);
  }

  /**
   The tree part of `enqueue_task`: `n` goes in at position `p`; if the queue is in order, this is behind all nodes of
   equal or smaller virtual time.
   */
  method InsertNode(n: Node, v: nat, leftmost: Node?, root: Root, tasks: map<Tid, Task>, ghost w: Tree)
    returns (leftmost': Node?, ghost w': Tree, ghost p: nat)
    requires TreeAt(root, w) && n !in Set(w) && Counted(leftmost, |Inorder(w)|, Inorder(w))
    requires forall i :: 0 <= i < |Inorder(w)| ==> Inorder(w)[i] in tasks
    modifies root, Set(w), n
    ensures TreeAt(root, w') && Set(w') <= Set(w) + {n} && Counted(leftmost', |Inorder(w)| + 1, Inorder(w'))
    ensures p <= |Inorder(w)| && Inorder(w') == Inorder(w)[..p] + [n] + Inorder(w)[p..]
    ensures Sorted(Inorder(w), tasks) ==> Split(Inorder(w), tasks, v, p, p)
  {
    var parent, goLeft, first;
    ghost var c;
    parent, goLeft, first, c := Descend(root, tasks, v, w);
    p := |Before(c)|;
    leftmost' := leftmost;
    if first {
      leftmost' := n;
    }
    ghost var h := Unplug(Leaf, c);
    LinkIn(n, parent, goLeft, root, w, c);
    w' := InsertColor(n, root, Set(w) + {n}, c);
    OwnNodes(root, Set(w) + {n}, w');
  }

  /** A tree can be described by its own nodes alone. */
  lemma {:induction false} OwnNodes(root: Root, s: set<Node>, w: Tree)
    requires Whole(Snap(s), root.node, w)
    ensures Set(w) <= s && Whole(Snap(Set(w)), root.node, w)
  {
    RepIn(Snap(s), w, null);
    RepRestrict(Snap(s), Snap(Set(w)), w, null);
  }

  /** The tree part of `dequeue_task`. `next` is what `rb_next` finds when the node is the leftmost one. */
  method RemoveNode(n: Node, leftmost: Node?, root: Root, ghost w: Tree)
    returns (leftmost': Node?, ghost w': Tree, ghost p: nat)
    requires TreeAt(root, w) && n in Set(w) && Counted(leftmost, |Inorder(w)|, Inorder(w))
    modifies root, Set(w)
    ensures TreeAt(root, w') && Set(w') <= Set(w) && Counted(leftmost', |Inorder(w)| - 1, Inorder(w'))
    ensures p < |Inorder(w)| && Inorder(w)[p] == n && Inorder(w') == Inorder(w)[..p] + Inorder(w)[p + 1..]
    ensures n !in Inorder(w)[..p]
  {
    ghost var t, c := Locate(w, Top, n);
    p := Position(w, t, c, n);
    ghost var ns := Inorder(w);
    assert ns[..p] + ns[p + 1..] == Before(c) + Inorder(t.left) + Inorder(t.right) + After(c);
    leftmost' := leftmost;
    if leftmost == n {
      leftmost' := Next(n, root, Set(w), t, c);
    }
    w' := Erase(n, root, Set(w), t, c);
    OwnNodes(root, Set(w), w');
    FirstLeft(Inorder(w), Inorder(w'), p, n, leftmost');
  }

  /** What is first once the node at position `p` is gone. */
  lemma {:induction false} FirstLeft(ns: seq<Node>, ns': seq<Node>, p: nat, n: Node, next: Node?)
    requires p < |ns| && ns[p] == n && ns' == ns[..p] + ns[p + 1..] && n !in ns[..p]
    requires if ns[0] == n then next == (if ns[p + 1..] == [] then null else ns[p + 1..][0]) else next == ns[0]
    ensures Counted(next, |ns| - 1, ns')
  {
    if ns[0] != n {
      assert p > 0 && ns'[0] == ns[0];
    } else {
      assert p == 0;
    }
  }

  /** The position of a node in the in-order sequence. */
  lemma {:induction false} Position(w: Tree, t: Tree, c: Ctx, n: Node) returns (p: nat)
    requires Disj(w) && Plug(c, t) == w && t.T? && t.node == n
    ensures p == |Before(c)| + |Inorder(t.left)| && p < |Inorder(w)| && Inorder(w)[p] == n
    ensures Inorder(w)[..p] == Before(c) + Inorder(t.left) && Inorder(w)[p + 1..] == Inorder(t.right) + After(c)
    ensures n !in Inorder(w)[..p]
  {
    p := |Before(c)| + |Inorder(t.left)|;
    PlugInorder(c, t);
    Around(Before(c), Inorder(t.left), n, Inorder(t.right), After(c));
    DisjPlug(c, t);
    AroundIn(c);
    SetInorder(t.left);
    assert n !in Before(c) && n !in Inorder(t.left);
  }

  lemma {:induction false} Around<A>(b: seq<A>, l: seq<A>, x: A, r: seq<A>, a: seq<A>)
    ensures var s, p := b + (l + [x] + r) + a, |b| + |l|; p < |s| && s[p] == x && s[..p] == b + l && s[p + 1..] == r + a
  {
  }

  lemma {:induction false} DisjPlug(c: Ctx, t: Tree)
    requires Disj(Plug(c, t))
    ensures Disj(t) && Set(t) !! CSet(c)
    decreases c
  {
    if !c.Top? { DisjPlug(c.up, Up(t, c)); }
  }

  /** The tree insertion is the queue insertion of `SchedSpec.Enqueue`. */
  lemma {:induction false} Inserted(s: Sched, tasks: map<Tid, Task>, ns: seq<Tid>, n: Tid, p: nat) returns (at: Place)
    requires WellFormed(s) && n in s.tasks && n !in s.queue
    requires var v := Max(s.tasks[n].vruntime, s.minV);
      && tasks == s.tasks[n := s.tasks[n].(vruntime := v)]
      && (Sorted(s.queue, tasks) ==> Split(s.queue, tasks, v, p, p))
    requires p <= |s.queue| && ns == s.queue[..p] + [n] + s.queue[p..]
    ensures SchedSpec.Enqueue(s, n, at) == s.(tasks := tasks, queue := ns)
    ensures Sorted(s.queue, s.tasks) ==> at == InOrder
    ensures WellFormed(s.(tasks := tasks, queue := ns))
  {
    var v := Max(s.tasks[n].vruntime, s.minV);
    assert forall i :: 0 <= i < |s.queue| ==> s.queue[i] != n;
    at := Anywhere(p);
    if Sorted(s.queue, s.tasks) {
      SortedElsewhere(s.queue, s.tasks, n, tasks[n]);
      PosUnique(s.queue, s.tasks, v, p);
      at := InOrder;
    }
    assert ns == InsertAt(s.queue, p, n);
  }

  lemma {:induction false} Removed(s: Sched, ns: seq<Tid>, n: Tid, p: nat)
    requires WellFormed(s) && p < |s.queue| && s.queue[p] == n && ns == s.queue[..p] + s.queue[p + 1..]
    requires n !in s.queue[..p]
    ensures ns == Without(s.queue, n) && WellFormed(s.(queue := ns))
  {
    var a, b := s.queue[..p], s.queue[p + 1..];
    WithoutMiddle(a, n, b);
    assert s.queue == a + [n] + b;
  }

  /** `struct cfs_rq` with the threads it schedules. */
  class Scheduler {
    const root: Root
    var leftmost: Node?
    var minVruntime: nat
    var nrRunning: nat
    var tasks: map<Tid, Task>
    var current: Tid
    var idle: Tid
    ghost var tree: Tree

    /** `thread_init`: `sched_init`, then main runs and idle is queued. */
    constructor (main: Tid, idle: Tid)
      requires main != idle
      modifies main, idle
      ensures Valid() && fresh(root) && Abs() == Boot(main, idle)
    {
      root := new Root();
      leftmost, minVruntime, nrRunning := null, 0, 0;
      tasks := Boot(main, idle).tasks;
      current, this.idle := main, idle;
      tree := Leaf;
      new;
      assert Bal(Leaf, 0);
      ghost var at := Enqueue(idle);
      assert Abs().queue == [idle];
      assert Abs().tasks == Boot(main, idle).tasks;
    }

    /** The queue is a red-black tree of the threads' own nodes, and `leftmost` and `nrRunning` describe it. */
    ghost predicate Valid()
      reads this, root, Set(tree)
    {
      && TreeAt(root, tree)
      && Counted(leftmost, nrRunning, Inorder(tree))
      && WellFormed(Abs())
    }

    /** The queue as a sequence of threads. */
    ghost function Abs(): Sched
      reads this
    {
      Sched(tasks, Inorder(tree), minVruntime, current, idle)
    }

    /** Records the new virtual time, leftmost node and count. */
    method Commit(tasks': map<Tid, Task>, next: Node?, nr: nat, ghost w: Tree)
      requires TreeAt(root, w) && Counted(next, nr, Inorder(w))
      requires WellFormed(Abs().(tasks := tasks', queue := Inorder(w)))
      modifies this`tasks, this`leftmost, this`nrRunning, this`tree
      ensures Valid() && Abs() == old(Abs()).(tasks := tasks', queue := Inorder(w))
    {
      tasks, leftmost, nrRunning, tree := tasks', next, nr, w;
    }

    /** `enqueue_task`: in a queue in order the thread goes to the place of its virtual time. */
    method Enqueue(t: Tid) returns (ghost at: Place)
      requires Valid() && t in tasks && t !in Abs().queue
      modifies this, root, tasks.Keys
      ensures Valid() && Abs() == SchedSpec.Enqueue(old(Abs()), t, at)
      ensures old(Sorted(Abs().queue, tasks)) ==> at == InOrder
    {
      ghost var s0 := Abs();
      SetInorder(tree);
      var v := tasks[t].vruntime;
      if v < minVruntime {
        v := minVruntime;
      }
      var tasks' := tasks[t := tasks[t].(vruntime := v)];
      assert v == Max(s0.tasks[t].vruntime, s0.minV) && tasks' == s0.tasks[t := s0.tasks[t].(vruntime := v)];
      ghost var p, w;
      var next;
      next, w, p := InsertNode(t, v, leftmost, root, tasks', tree);
      at := Inserted(s0, tasks', Inorder(w), t, p);
      Commit(tasks', next, nrRunning + 1, w);
    }

    /** `dequeue_task` */
    method Dequeue(t: Tid)
      requires Valid() && t in tasks && t in Abs().queue
      modifies this, root, tasks.Keys
      ensures Valid() && Abs() == old(Abs()).(queue := Without(old(Abs()).queue, t))
    {
      ghost var s0 := Abs();
      SetInorder(tree);
      ghost var p;
      ghost var w;
      var next;
      next, w, p := RemoveNode(t, leftmost, root, tree);
      Removed(s0, Inorder(w), t, p);
      Commit(tasks, next, nrRunning - 1, w);
    }

    /** Writes the scheduling fields of one thread. */
    method SetTask(t: Tid, task: Task)
      requires Valid() && t in tasks
      modifies this`tasks
      ensures Valid() && Abs() == old(Abs()).(tasks := old(tasks)[t := task])
    {
      tasks := tasks[t := task];
    }

    method SetMin(m: nat)
      requires Valid()
      modifies this`minVruntime
      ensures Valid() && Abs() == old(Abs()).(minV := m)
    {
      minVruntime := m;
    }

    method SetCurrent(t: Tid)
      requires Valid() && t in tasks
      modifies this`current
      ensures Valid() && Abs() == old(Abs()).(current := t)
    {
      current := t;
    }

    /** `update_curr` with `calc_vruntime_delta` */
    method UpdateCurr(t: Tid)
      requires Valid() && t in tasks
      modifies this
      ensures Valid() && Abs() == SchedSpec.UpdateCurr(old(Abs()), t) && tree == old(tree)
    {
      var curr := tasks[t];
      var delta := Delta(curr);
      if delta > 0 {
        var w := if curr.weight == 0 then 1024 else curr.weight;
        SetTask(t,
                curr.(weight := w, vruntime := curr.vruntime + VDelta(w, delta), execStart := curr.elapsed,
                      sumExec := curr.sumExec + delta));
        var m := tasks[t].vruntime;
        if leftmost != null {
          assert leftmost == Abs().queue[0];
          if tasks[leftmost].vruntime < m {
            m := tasks[leftmost].vruntime;
          }
        }
        if m < minVruntime {
          m := minVruntime;
        }
        SetMin(m);
      }
    }

    /** `pick_next_task` */
    function PickNext(): (n: Node?)
      requires Valid()
      reads this, root, Set(tree)
      ensures n == if Abs().queue == [] then null else Abs().queue[0]
    {
      leftmost
    }

    /** The end of `schedule`: the chosen thread leaves the queue and runs. */
    method SwitchTo(n: Tid)
      requires Valid() && n in tasks && n in Abs().queue
      modifies this, root, tasks.Keys
      ensures Valid() && Abs() == SchedSpec.SwitchTo(old(Abs()), n)
    {
      Dequeue(n);
      SetTask(n, tasks[n].(status := RUNNING, execStart := tasks[n].elapsed));
      SetCurrent(n);
    }

    /** `thread_unblock` */
    method Unblock(t: Tid) returns (ghost at: Place)
      requires Valid() && QueueSound(Abs()) && t in tasks && Asleep(tasks[t])
      modifies this, root, tasks.Keys
      ensures Valid() && SchedSpec.Unblock(old(Abs()), t, at) == Ok(Abs())
      ensures old(Sorted(Abs().queue, tasks)) ==> at == InOrder
    {
      at := MakeReady(t);
    }

    /** A thread that is not queued becomes READY. */
    method MakeReady(t: Tid) returns (ghost at: Place)
      requires Valid() && t in tasks && t !in Abs().queue
      modifies this, root, tasks.Keys
      ensures Valid() && Abs() == SchedSpec.Enqueue(SetStatus(old(Abs()), t, READY), t, at)
      ensures old(Sorted(Abs().queue, tasks)) ==> at == InOrder
    {
      ghost var s0 := Abs();
      if Sorted(s0.queue, tasks) { SortedElsewhere(s0.queue, tasks, t, tasks[t].(status := READY)); }
      SetTask(t, tasks[t].(status := READY));
      at := Enqueue(t);
    }

    /** The first half of `schedule`. */
    method Requeue() returns (ghost at: Place)
      requires Valid() && QueueSound(Abs())
      modifies this, root, tasks.Keys
      ensures Valid() && Abs() == SchedSpec.Requeue(old(Abs()), at)
      ensures old(Sorted(Abs().queue, tasks) || tasks[current].status == READY) ==> at == InOrder
    {
      ghost var s0 := Abs();
      UpdateCurr(current);
      at := InOrder;
      if tasks[current].status == RUNNING {
        if Sorted(s0.queue, s0.tasks) { SortedElsewhere(s0.queue, s0.tasks, current, tasks[current]); }
        at := MakeReady(current);
      }
    }

    /** The second half of `schedule`. */
    method Dispatch()
      requires Valid() && (Abs().queue == [] ==> QueueSound(Abs()) && (current == idle || Asleep(tasks[idle])))
      modifies this, root, tasks.Keys
      ensures Valid() && SchedSpec.Dispatch(old(Abs())) == Ok(Abs())
    {
      var next := PickNext();
      if next == null {
        if current == idle {
          SetTask(idle, tasks[idle].(status := RUNNING));
          return;
        }
        ghost var at := Unblock(idle);
        next := PickNext();
      }
      SwitchTo(next);
    }

    /** `schedule`. The queue is non-empty when the caller has queued the current thread itself. */
    method Schedule() returns (ghost at: Place)
      requires Valid() && MaySchedule(Abs())
      modifies this, root, tasks.Keys
      ensures Valid() && SchedSpec.Schedule(old(Abs()), at) == Ok(Abs()) && Sound(Abs())
      ensures old(Sorted(Abs().queue, tasks) || tasks[current].status == READY) ==> at == InOrder
    {
      ghost var s0 := Abs();
      at := Requeue();
      RequeueSound(s0, at);
      ScheduleSound(s0, at);
      Dispatch();
    }

    method CountTick()
      requires Valid()
      modifies this`tasks
      ensures Valid() && Abs() == Ticked(old(Abs()))
    {
      SetTask(current, tasks[current].(elapsed := tasks[current].elapsed + 1));
    }

    /** `timer_interrupt_handler` */
    method Tick() returns (ghost at: Place)
      requires Valid() && Sound(Abs())
      modifies this, root, tasks.Keys
      ensures Valid() && TickStep(old(Abs()), at) == Ok(Abs()) && Sound(Abs())
      ensures old(Inv(Abs())) ==> at == InOrder && Inv(Abs())
    {
      ghost var s0 := Abs();
      at := InOrder;
      TickedSound(s0);
      if Inv(s0) {
        TickOk(s0);
        TickedOk(s0);
      }
      CountTick();
      if Delta(tasks[current]) >= SCHED_LATENCY_TICKS {
        at := Schedule();
      }
    }

    /** `thread_block` */
    method Block(stat: Status)
      requires Valid() && Sound(Abs()) && Allowed(Abs(), Step.Block(stat))
      modifies this, root, tasks.Keys
      ensures Valid() && BlockStep(old(Abs()), stat) == Ok(Abs()) && Sound(Abs())
      ensures old(Inv(Abs())) ==> Inv(Abs())
    {
      ghost var s0 := Abs();
      BlockedSound(s0, stat);
      if Inv(s0) { BlockOk(s0, stat); }
      SetTask(current, tasks[current].(status := stat));
      ghost var at := Schedule();
    }

    /**
     `thread_yield`, at any time: one thread runs, and the queue holds the others that are READY. From a queue in order,
     it stays so exactly when nobody is overtaken.
     */
    method Yield() returns (ghost at: Place)
      requires Valid() && Sound(Abs())
      modifies this, root, tasks.Keys
      ensures Valid() && YieldStep(old(Abs()), at) == Ok(Abs()) && Sound(Abs())
      ensures old(Inv(Abs())) ==> at == InOrder && (Inv(Abs()) <==> YieldSafe(old(Abs())))
    {
      ghost var s0 := Abs();
      at := MakeReady(current);
      YieldingSound(s0, at);
      ghost var same := Schedule();
      if Inv(s0) { YieldExact(s0); }
    }

    /** `thread_start` of a thread whose node is new. */
    method Start(t: Tid, nice: int) returns (ghost at: Place)
      requires Valid() && Sound(Abs()) && Allowed(Abs(), Step.Start(t, nice))
      modifies this, root, tasks.Keys, t
      ensures Valid() && Abs() == StartStep(old(Abs()), t, nice, at) && Sound(Abs())
      ensures old(Inv(Abs())) ==> at == InOrder && Inv(Abs())
    {
      ghost var s0 := Abs();
      if Inv(s0) { StartOk(s0, t, nice); }
      if Sorted(s0.queue, tasks) {
        SortedElsewhere(s0.queue, s0.tasks, t, Task(READY, 0, NiceToWeight(nice), 0, 0, 0));
      }
      Add(t, Task(READY, 0, NiceToWeight(nice), 0, 0, 0));
      at := Enqueue(t);
      StartSound(s0, t, nice, at);
    }

    /** `thread_unblock` between two steps. */
    method Wake(t: Tid) returns (ghost at: Place)
      requires Valid() && Sound(Abs()) && Allowed(Abs(), Step.Wake(t))
      modifies this, root, tasks.Keys
      ensures Valid() && SchedSpec.Unblock(old(Abs()), t, at) == Ok(Abs()) && Sound(Abs())
      ensures old(Inv(Abs())) ==> at == InOrder && Inv(Abs())
    {
      ghost var s0 := Abs();
      if Inv(s0) { WakeOk(s0, t); }
      at := Unblock(t);
      EnqueueSound(s0, t, at);
    }

    method Add(t: Tid, task: Task)
      requires Valid()
      modifies this`tasks
      ensures Valid() && Abs() == old(Abs()).(tasks := old(tasks)[t := task])
    {
      tasks := tasks[t := task];
    }
  }
}
