// The pointer-based red-black interval tree. Each method carries, as ghost arguments, the place in
// the tree it works on: a context `c` (everything around) and the subtree `t` plugged into it.

module IntervalTreeModel {
  import opened IntervalTreeShape
  import opened IntervalTreeBalance
  import opened IntervalTreeQuery
  import MachineWords
  import opened Sequences

  /** The mutable fields of one node. */
  datatype Links = Links(parent: Node, left: Node, right: Node, red: bool, maxHigh: int)

  /** One frame of the query's stack. */
  datatype RecursionNode = RecursionNode(startNode: Node?, parentIndex: nat, tryRightBranch: bool)

  ghost predicate Labelled(n: Node) {
    n.storedInterval != null && n.key == n.storedInterval.low && n.high == n.storedInterval.high
  }

  ghost predicate WellFormed(t: Tree) {
    RedBlack(t) && Augmented(t) && SortedByKey(Inorder(t)) && forall n :: n in Nodes(t) ==> Labelled(n)
  }

  /** A tree of one node, with a key up to the given one. */
  ghost predicate SingleUpTo(t: Tree, key: int) {
    t.Fork? && t.left.Leaf? && t.right.Leaf? && t.node.key <= key
  }

  ghost predicate OnTheRight(u: Tree, n: Node) {
    u.Fork? && u.left.Leaf? && u.node == n
  }

  /** A snapshot of the node heap. */
  type Heap = map<Node, Links>

  class IntervalTree {
    const nil: Node
    const root: Node
    ghost var nodes: set<Node>
    ghost var tree: Tree

    // the explicit stack of the query
    var recursionNodeStack: array<RecursionNode>
    var recursionNodeStackSize: nat
    var recursionNodeStackTop: nat
    var currentParent: nat

    constructor ()
      ensures Valid() && tree == Leaf && fresh(nodes) && fresh(recursionNodeStack)
    {
      nil := new Node.Sentinel(-MAX_TIME);
      root := new Node.Sentinel(MAX_TIME);
      recursionNodeStackSize := 128;
      recursionNodeStack := new RecursionNode[128](_ => RecursionNode(null, 0, false));
      recursionNodeStackTop := 1;
      currentParent := 0;
      new;
      hide *;
      root.parent, root.left, root.right := nil, nil, nil;
      nodes := {nil, root};
      tree := Leaf;
      NothingStored();
    }

    lemma NothingStored()
      requires nil.storedInterval == null && root.storedInterval == null && recursionNodeStackTop == 1
      requires recursionNodeStack.Length == recursionNodeStackSize && recursionNodeStackSize >= 1
      requires tree == Leaf && nodes == {nil, root} && nil != root && nil.left == nil.right == nil
      requires !nil.red && nil.maxHigh == -MAX_TIME && !root.red && root.parent == root.left == root.right == nil
      ensures Valid()
    {
    }

    /** The object invariant: a balanced, ordered, augmented search tree laid out in the heap. */
    ghost predicate Valid()
      reads this, nodes, recursionNodeStack
    {
      nodes == Nodes(tree) + {nil, root} && Whole(Heap(), Top, tree) && WellFormed(tree) && Idle()
    }

    /** So whatever insertions and deletions made the tree, it is at most twice as high as the logarithm of its size. */
    lemma StaysShallow()
      requires Valid()
      ensures exists b: nat :: Height(tree) <= 2 * b && MachineWords.Pow2(b) <= |Inorder(tree)| + 1
    {
      hide Whole, Idle;
      LogarithmicHeight(tree);
      SizeIsLength(tree);
    }

    ghost function Heap(): Heap
      reads this`nodes, nodes
    {
      map n | n in nodes :: Links(n.parent, n.left, n.right, n.red, n.maxHigh)
    }

    function ChildOf(n: Node, left: bool): Node
      reads n
    {
      if left then n.left else n.right
    }

    // ---------- how a shape lies in the heap ----------

    /** What a link to `t` holds. */
    ghost function Ref(t: Tree): Node { if t.Fork? then t.node else nil }

    /** The node whose child link is the hole of `c`. */
    ghost function ParentRef(c: Context): Node { if c.Top? then root else c.node }

    ghost predicate Rep(h: Heap, t: Tree, p: Node) {
      match t
      case Leaf => true
      case Fork(l, n, red, m, r) =>
        n in h && h[n] == Links(p, Ref(l), Ref(r), red, m) && Rep(h, l, n) && Rep(h, r, n)
    }

    ghost predicate RepContext(h: Heap, c: Context, hole: Node) {
      if c.Top? then root in h && h[root].left == hole
      else
        c.node in h && Rep(h, c.sibling, c.node) && RepContext(h, c.up, c.node) &&
        h[c.node] == if c.left then Links(ParentRef(c.up), hole, Ref(c.sibling), c.red, c.maxHigh)
                     else Links(ParentRef(c.up), Ref(c.sibling), hole, c.red, c.maxHigh)
    }

    ghost predicate Sentinels(h: Heap) {
      nil != root && nil in h && root in h &&
      !h[nil].red && h[nil].maxHigh == -MAX_TIME && h[nil].left == nil && h[nil].right == nil &&
      !h[root].red && h[root].right == nil && h[root].parent == nil
    }

    ghost predicate Apart(c: Context, t: Tree) {
      Separate(t) && SeparateContext(c) && Nodes(t) !! ContextNodes(c) &&
      nil !in Nodes(t) && root !in Nodes(t) && nil !in ContextNodes(c) && root !in ContextNodes(c)
    }

    /** The heap holds the tree `t` plugged into `c`. */
    ghost predicate Whole(h: Heap, c: Context, t: Tree) {
      Sentinels(h) && Apart(c, t) && Rep(h, t, ParentRef(c)) && RepContext(h, c, Ref(t))
    }

    // ---------- moving the focus ----------

    lemma GoUp(h: Heap, c: Context, t: Tree)
      requires Whole(h, c, t) && c.Step?
      ensures Whole(h, c.up, PlugOne(c, t))
    {
    }

    lemma GoDown(h: Heap, c: Context, t: Tree, left: bool)
      requires Whole(h, c, t) && t.Fork?
      ensures Whole(h, Down(c, t, left), Child(t, left))
    {
    }

    lemma {:induction false} ZoomIn(h: Heap, inner: Context, outer: Context, t: Tree)
      requires Whole(h, outer, Plug(inner, t))
      ensures Whole(h, Compose(inner, outer), t)
      decreases inner
    {
      if inner.Step? {
        ZoomIn(h, inner.up, outer, PlugOne(inner, t));
        GoDown(h, Compose(inner.up, outer), PlugOne(inner, t), inner.left);
      }
    }

    lemma {:induction false} ZoomOut(h: Heap, c: Context, t: Tree)
      requires Whole(h, c, t)
      ensures Whole(h, Top, Plug(c, t))
      decreases c
    {
      if c.Step? {
        GoUp(h, c, t);
        ZoomOut(h, c.up, PlugOne(c, t));
      }
    }

    // ---------- framing ----------

    /** Nodes outside `d` are as before. */
    ghost predicate ChangedOnly(h: Heap, k: Heap, d: set<Node>) {
      forall n :: n in h && n !in d ==> n in k && k[n] == h[n]
    }

    /** A subtree none of whose nodes changed, except that its topmost one may have a new parent. */
    lemma {:induction false} Reparented(h: Heap, k: Heap, d: set<Node>, t: Tree, p: Node, q: Node)
      requires Rep(h, t, p) && Separate(t) && ChangedOnly(h, k, d)
      requires forall n :: n in d && n in Nodes(t) ==> n == Ref(t)
      requires t.Fork? ==> t.node in k && k[t.node] == h[t.node].(parent := q)
      ensures Rep(k, t, q)
    {
      if t.Fork? {
        Reparented(h, k, d, t.left, t.node, t.node);
        Reparented(h, k, d, t.right, t.node, t.node);
      }
    }

    ghost function Relink(l: Links, c: Context, hole: Node): Links {
      if c.Step? && !c.left then l.(right := hole) else l.(left := hole)
    }

    /** A context of which only the link holding the hole changed. */
    lemma {:induction false} Relinked(h: Heap, k: Heap, d: set<Node>, c: Context, x: Node, y: Node)
      requires RepContext(h, c, x) && SeparateContext(c) && root !in ContextNodes(c)
      requires ChangedOnly(h, k, d)
      requires forall n :: n in d && (n in ContextNodes(c) || n == root) ==> n == ParentRef(c)
      requires ParentRef(c) in h && ParentRef(c) in k && k[ParentRef(c)] == Relink(h[ParentRef(c)], c, y)
      ensures RepContext(k, c, y)
    {
      if c.Step? {
        Reparented(h, k, d, c.sibling, c.node, c.node);
        Relinked(h, k, d, c.up, c.node, c.node);
      }
    }

    // ---------- rotations ----------

    /** The pointer surgery: how the links and max_high values of the four nodes concerned change. */
    method LeftRotate(x: Node)
      requires x.right !in {x, x.parent, nil} && x !in {x.parent, nil} && x.parent != nil
      requires x.right.left !in {x, x.right, x.parent} && x in {x.parent.left, x.parent.right}
      requires x.left !in {x, x.right} && x.right.right !in {x, x.right}
      modifies x, x.right, x.parent, x.right.left
      ensures var y, b, p := old(x.right), old(x.right.left), old(x.parent);
        && x.right == b && x.parent == y && x.left == old(x.left) && x.red == old(x.red)
        && y.left == x && y.parent == p && y.right == old(x.right.right) && y.red == old(x.right.red)
        && b.parent == (if b == nil then old(x.right.left.parent) else x)
        && b.left == old(x.right.left.left) && b.right == old(x.right.left.right)
        && b.red == old(x.right.left.red) && b.maxHigh == old(x.right.left.maxHigh)
        && p.left == (if x == old(x.parent.left) then y else old(x.parent.left))
        && p.right == (if x == old(x.parent.left) then old(x.parent.right) else y)
        && p.parent == old(x.parent.parent) && p.red == old(x.parent.red) && p.maxHigh == old(x.parent.maxHigh)
        && x.maxHigh == Max(old(x.left.maxHigh), Max(old(x.right.left.maxHigh), x.high))
        && y.maxHigh == Max(x.maxHigh, Max(old(x.right.right.maxHigh), y.high))
    {
      var y := x.right;
      x.right := y.left;
      if y.left != nil {
        y.left.parent := x;
      }
      y.parent := x.parent;
      if x == x.parent.left {
        x.parent.left := y;
      } else {
        x.parent.right := y;
      }
      y.left := x;
      x.parent := y;
      x.maxHigh := Max(x.left.maxHigh, Max(x.right.maxHigh, x.high));
      y.maxHigh := Max(x.maxHigh, Max(y.right.maxHigh, y.high));
    }

    method RightRotate(y: Node)
      requires y.left !in {y, y.parent, nil} && y !in {y.parent, nil} && y.parent != nil
      requires y.left.right !in {y, y.left, y.parent} && y in {y.parent.left, y.parent.right}
      requires y.right !in {y, y.left} && y.left.left !in {y, y.left}
      modifies y, y.left, y.parent, y.left.right
      ensures var x, b, p := old(y.left), old(y.left.right), old(y.parent);
        && y.left == b && y.parent == x && y.right == old(y.right) && y.red == old(y.red)
        && x.right == y && x.parent == p && x.left == old(y.left.left) && x.red == old(y.left.red)
        && b.parent == (if b == nil then old(y.left.right.parent) else y)
        && b.left == old(y.left.right.left) && b.right == old(y.left.right.right)
        && b.red == old(y.left.right.red) && b.maxHigh == old(y.left.right.maxHigh)
        && p.left == (if y == old(y.parent.left) then x else old(y.parent.left))
        && p.right == (if y == old(y.parent.left) then old(y.parent.right) else x)
        && p.parent == old(y.parent.parent) && p.red == old(y.parent.red) && p.maxHigh == old(y.parent.maxHigh)
        && y.maxHigh == Max(old(y.left.right.maxHigh), Max(old(y.right.maxHigh), y.high))
        && x.maxHigh == Max(old(y.left.left.maxHigh), Max(y.maxHigh, x.high))
    {
      var x := y.left;
      y.left := x.right;
      if nil != x.right {
        x.right.parent := y;
      }
      x.parent := y.parent;
      if y == y.parent.left {
        y.parent.left := x;
      } else {
        y.parent.right := x;
      }
      x.right := y;
      y.parent := x;
      y.maxHigh := Max(y.left.maxHigh, Max(y.right.maxHigh, y.high));
      x.maxHigh := Max(x.left.maxHigh, Max(y.maxHigh, x.high));
    }

    /** What reading through a link shows, also when it is nil. */
    lemma Read(h: Heap, t: Tree, p: Node)
      requires Sentinels(h) && Rep(h, t, p)
      ensures Ref(t) in h && h[Ref(t)].maxHigh == MaxHigh(t) && h[Ref(t)].red == IsRed(t)
    {
    }

    lemma AboutToRotateLeft(h: Heap, c: Context, t: Tree)
      requires Whole(h, c, t) && t.Fork? && t.right.Fork?
      ensures var x, y, a, b, d, p := t.node, t.right.node, t.left, t.right.left, t.right.right, ParentRef(c);
        {x, y, p, Ref(a), Ref(b), Ref(d)} <= h.Keys &&
        h[x] == Links(p, Ref(a), y, t.red, t.maxHigh) &&
        h[y] == Links(x, Ref(b), Ref(d), t.right.red, t.right.maxHigh) &&
        y !in {x, p, nil} && x !in {p, nil} && p != nil && Ref(b) !in {x, y, p} && Ref(a) !in {x, y} &&
        Ref(d) !in {x, y} &&
        (Ref(b) == nil <==> b.Leaf?) && (h[p].left == x <==> c.Top? || c.left) &&
        (c.Step? && !c.left ==> h[p].right == x) &&
        h[Ref(a)].maxHigh == MaxHigh(a) && h[Ref(b)].maxHigh == MaxHigh(b) && h[Ref(d)].maxHigh == MaxHigh(d)
    {
      RotatedLeftNodes(t);
      assert Rep(h, t.right, t.node);
      Read(h, t.left, t.node);
      Read(h, t.right.left, t.right.node);
      Read(h, t.right.right, t.right.node);
    }

    lemma AboutToRotateRight(h: Heap, c: Context, t: Tree)
      requires Whole(h, c, t) && t.Fork? && t.left.Fork?
      ensures var x, y, a, b, d, p := t.left.node, t.node, t.left.left, t.left.right, t.right, ParentRef(c);
        {x, y, p, Ref(a), Ref(b), Ref(d)} <= h.Keys &&
        h[y] == Links(p, x, Ref(d), t.red, t.maxHigh) &&
        h[x] == Links(y, Ref(a), Ref(b), t.left.red, t.left.maxHigh) &&
        x !in {y, p, nil} && y !in {p, nil} && p != nil && Ref(b) !in {x, y, p} && Ref(a) !in {x, y} &&
        Ref(d) !in {x, y} &&
        (Ref(b) == nil <==> b.Leaf?) && (h[p].left == y <==> c.Top? || c.left) &&
        (c.Step? && !c.left ==> h[p].right == y) &&
        h[Ref(a)].maxHigh == MaxHigh(a) && h[Ref(b)].maxHigh == MaxHigh(b) && h[Ref(d)].maxHigh == MaxHigh(d)
    {
      RotatedRightNodes(t);
      assert Rep(h, t.left, t.node);
      Read(h, t.left.left, t.left.node);
      Read(h, t.left.right, t.left.node);
      Read(h, t.right, t.node);
    }

    lemma LeftRotated(h: Heap, k: Heap, c: Context, t: Tree)
      requires Whole(h, c, t) && t.Fork? && t.right.Fork?
      requires var x, y, b, p, u := t.node, t.right.node, t.right.left, ParentRef(c), RotatedLeft(t);
        ChangedOnly(h, k, {x, y, Ref(b), p}) && {x, y, Ref(b), p} <= k.Keys && {p, Ref(b)} <= h.Keys &&
        k[x] == Links(y, Ref(t.left), Ref(b), t.red, u.left.maxHigh) &&
        k[y] == Links(p, x, Ref(t.right.right), t.right.red, u.maxHigh) &&
        k[p] == Relink(h[p], c, y) &&
        k[Ref(b)] == if b.Fork? then h[Ref(b)].(parent := x) else h[nil]
      ensures Whole(k, c, RotatedLeft(t))
    {
      var x, y, a, b, e, p := t.node, t.right.node, t.left, t.right.left, t.right.right, ParentRef(c);
      RotatedLeftNodes(t);
      var d := {x, y, Ref(b), p};
      assert Rep(h, t.right, x);
      Reparented(h, k, d, a, x, x);
      Reparented(h, k, d, b, y, x);
      Reparented(h, k, d, e, y, y);
      Relinked(h, k, d, c, x, y);
    }

    lemma RightRotated(h: Heap, k: Heap, c: Context, t: Tree)
      requires Whole(h, c, t) && t.Fork? && t.left.Fork?
      requires var x, y, b, p, u := t.left.node, t.node, t.left.right, ParentRef(c), RotatedRight(t);
        ChangedOnly(h, k, {x, y, Ref(b), p}) && {x, y, Ref(b), p} <= k.Keys && {p, Ref(b)} <= h.Keys &&
        k[y] == Links(x, Ref(b), Ref(t.right), t.red, u.right.maxHigh) &&
        k[x] == Links(p, Ref(t.left.left), y, t.left.red, u.maxHigh) &&
        k[p] == Relink(h[p], c, x) &&
        k[Ref(b)] == if b.Fork? then h[Ref(b)].(parent := y) else h[nil]
      ensures Whole(k, c, RotatedRight(t))
    {
      var x, y, a, b, e, p := t.left.node, t.node, t.left.left, t.left.right, t.right, ParentRef(c);
      RotatedRightNodes(t);
      var d := {x, y, Ref(b), p};
      assert Rep(h, t.left, y);
      Reparented(h, k, d, a, x, x);
      Reparented(h, k, d, b, x, y);
      Reparented(h, k, d, e, y, y);
      Relinked(h, k, d, c, y, x);
    }

    /** The rotation of `x` to one side, where the shape `t` lies in the context `c`. */
    method Rotate(x: Node, left: bool, ghost c: Context, ghost t: Tree)
      requires Whole(Heap(), c, t) && t.Fork? && t.node == x && Child(t, !left).Fork?
      modifies nodes
      ensures Whole(Heap(), c, Rotated(t, left))
      ensures nil.parent == old(nil.parent)
    {
      if left {
        RotateToLeft(x, c, t);
      } else {
        RotateToRight(x, c, t);
      }
    }

    method RotateToLeft(x: Node, ghost c: Context, ghost t: Tree)
      requires Whole(Heap(), c, t) && t.Fork? && t.node == x && t.right.Fork?
      modifies nodes
      ensures Whole(Heap(), c, RotatedLeft(t))
      ensures nil.parent == old(nil.parent)
    {
      ghost var h := Heap();
      AboutToRotateLeft(h, c, t);
      LeftRotate(x);
      LeftRotated(h, Heap(), c, t);
    }

    method RotateToRight(y: Node, ghost c: Context, ghost t: Tree)
      requires Whole(Heap(), c, t) && t.Fork? && t.node == y && t.left.Fork?
      modifies nodes
      ensures Whole(Heap(), c, RotatedRight(t))
      ensures nil.parent == old(nil.parent)
    {
      ghost var h := Heap();
      AboutToRotateRight(h, c, t);
      RightRotate(y);
      RightRotated(h, Heap(), c, t);
    }

    // ---------- single writes ----------

    lemma Written(h: Heap, k: Heap, c: Context, t: Tree, red: bool, m: int)
      requires Whole(h, c, t) && t.Fork?
      requires ChangedOnly(h, k, {t.node}) && t.node in k && k[t.node] == h[t.node].(red := red, maxHigh := m)
      ensures Whole(k, c, t.(red := red, maxHigh := m))
    {
      var d := {t.node};
      Reparented(h, k, d, t.left, t.node, t.node);
      Reparented(h, k, d, t.right, t.node, t.node);
      Relinked(h, k, d, c, t.node, t.node);
    }

    method Paint(x: Node, red: bool, ghost c: Context, ghost t: Tree)
      requires Whole(Heap(), c, t) && t.Fork? && t.node == x
      modifies nodes`red
      ensures Whole(Heap(), c, t.(red := red))
    {
      ghost var h := Heap();
      x.red := red;
      Written(h, Heap(), c, t, red, t.maxHigh);
    }
    /** What the code sees around the focus. */
    lemma Look(h: Heap, c: Context, t: Tree)
      requires Whole(h, c, t)
      ensures Ref(t) in h && h[Ref(t)].red == IsRed(t) && h[Ref(t)].maxHigh == MaxHigh(t)
      ensures t.Leaf? <==> Ref(t) == nil
      ensures Ref(t) != root && ParentRef(c) != nil && (ParentRef(c) == root <==> c.Top?)
      ensures t.Fork? ==> h[t.node] == Links(ParentRef(c), Ref(t.left), Ref(t.right), t.red, t.maxHigh)
      ensures ParentRef(c) in h && h[ParentRef(c)].red == (c.Step? && c.red)
      ensures c.Step? ==> Ref(c.sibling) in h && h[Ref(c.sibling)].red == IsRed(c.sibling) &&
                          h[Ref(c.sibling)].maxHigh == MaxHigh(c.sibling) &&
                          (c.sibling.Leaf? <==> Ref(c.sibling) == nil)
      ensures c.Step? ==>
        h[c.node] == if c.left then Links(ParentRef(c.up), Ref(t), Ref(c.sibling), c.red, c.maxHigh)
                     else Links(ParentRef(c.up), Ref(c.sibling), Ref(t), c.red, c.maxHigh)
      ensures c.Step? && (t.Fork? || c.sibling.Fork?) ==> Ref(t) != Ref(c.sibling)
      ensures c.Top? ==> h[root].left == Ref(t)
    {
      Read(h, t, ParentRef(c));
      if c.Step? {
        Read(h, c.sibling, c.node);
      }
    }

    /** Paint, seen from a child. */
    method PaintParent(p: Node, red: bool, ghost c: Context, ghost t: Tree)
      requires Whole(Heap(), c, t) && c.Step? && p == c.node
      modifies nodes`red
      ensures Whole(Heap(), c.(red := red), t)
    {
      GoUp(Heap(), c, t);
      ghost var u := PlugOne(c, t);
      Paint(p, red, c.up, u);
      GoDown(Heap(), c.up, u.(red := red), c.left);
    }

    method PaintSibling(s: Node, red: bool, ghost c: Context, ghost t: Tree)
      requires Whole(Heap(), c, t) && c.Step? && c.sibling.Fork? && s == c.sibling.node
      modifies nodes`red
      ensures Whole(Heap(), c.(sibling := c.sibling.(red := red)), t)
    {
      GoUp(Heap(), c, t);
      GoDown(Heap(), c.up, PlugOne(c, t), !c.left);
      ghost var d := Down(c.up, PlugOne(c, t), !c.left);
      Paint(s, red, d, c.sibling);
      ghost var u := PlugOne(c.(sibling := c.sibling.(red := red)), t);
      GoUp(Heap(), d, c.sibling.(red := red));
      GoDown(Heap(), c.up, u, c.left);
    }

    // ---------- insertion ----------

    lemma Attached(h: Heap, k: Heap, c: Context, z: Node, red: bool, m: int)
      requires Whole(h, c, Leaf) && z !in ContextNodes(c) && z != nil && z != root
      requires ChangedOnly(h, k, {z, ParentRef(c)}) && ParentRef(c) in h && ParentRef(c) in k && z in k
      requires k[z] == Links(ParentRef(c), nil, nil, red, m)
      requires k[ParentRef(c)] == Relink(h[ParentRef(c)], c, z)
      ensures Whole(k, c, Fork(Leaf, z, red, m, Leaf))
    {
      Relinked(h, k, {z, ParentRef(c)}, c, nil, z);
    }

    /** The descent: the node below which `z` belongs, behind all keys that are not larger. */
    method FindPlace(z: Node, ghost t: Tree) returns (y: Node, ghost c: Context)
      requires Whole(Heap(), Top, t) && SortedByKey(Inorder(t))
      ensures Plug(c, Leaf) == t && Whole(Heap(), c, Leaf) && y == ParentRef(c)
      ensures forall n :: n in Before(c) ==> n.key <= z.key
      ensures forall n :: n in After(c) ==> n.key > z.key
    {
      ghost var u := t;
      c := Top;
      y := root;
      var x := root.left;
      Look(Heap(), c, u);
      while x != nil
        invariant Whole(Heap(), c, u) && Plug(c, u) == t && x == Ref(u) && y == ParentRef(c)
        invariant forall n :: n in Before(c) ==> n.key <= z.key
        invariant forall n :: n in After(c) ==> n.key > z.key
        decreases Size(u)
      {
        Look(Heap(), c, u);
        Narrowed(c, u, z, t);
        ghost var left := u.node.key > z.key;
        GoDown(Heap(), c, u, left);
        y := x;
        if x.key > z.key {
          x := x.left;
        } else {
          x := x.right;
        }
        c, u := Down(c, u, left), Child(u, left);
        Look(Heap(), c, u);
      }
      Look(Heap(), c, u);
    }

    /** Makes `z` a child of `y`, on the side its key asks for. */
    method HangBelow(y: Node, z: Node, ghost c: Context)
      requires Whole(Heap(), c, Leaf) && y == ParentRef(c) && z in nodes && z.left == z.right == nil
      requires z !in ContextNodes(c) && z != nil && z != root
      requires c.Step? ==> (c.left <==> y.key > z.key)
      modifies y, z
      ensures Whole(Heap(), c, Fork(Leaf, z, old(z.red), old(z.maxHigh), Leaf))
    {
      ghost var h := Heap();
      Look(h, c, Leaf);
      z.parent := y;
      if y == root || y.key > z.key {
        y.left := z;
      } else {
        y.right := z;
      }
      Attached(h, Heap(), c, z, h[z].red, h[z].maxHigh);
    }

    method ClearChildren(z: Node, ghost t: Tree)
      requires Whole(Heap(), Top, t) && z in nodes && z !in Nodes(t) && z != nil && z != root
      modifies z
      ensures Whole(Heap(), Top, t) && z.left == z.right == nil && z.red == old(z.red) && z.maxHigh == old(z.maxHigh)
    {
      ghost var h := Heap();
      z.left, z.right := nil, nil;
      Forgotten(h, Heap(), {z}, t);
    }

    /** Inserts `z` as a leaf. */
    method RecursiveInsert(z: Node, ghost t: Tree) returns (ghost c: Context)
      requires Whole(Heap(), Top, t) && SortedByKey(Inorder(t))
      requires z in nodes && z !in Nodes(t) && z != nil && z != root
      modifies nodes
      ensures Plug(c, Leaf) == t
      ensures Whole(Heap(), c, Fork(Leaf, z, old(z.red), old(z.maxHigh), Leaf))
      ensures forall n :: n in Before(c) ==> n.key <= z.key
      ensures forall n :: n in After(c) ==> n.key > z.key
    {
      ClearChildren(z, t);
      var y;
      y, c := FindPlace(z, t);
      PlugNodes(c, Leaf);
      WhichSide(c, z);
      assert y in nodes by { Look(Heap(), c, Leaf); }
      HangBelow(y, z, c);
    }

    method FixOne(x: Node, ghost c: Context, ghost t: Tree) returns (next: Node)
      requires Whole(Heap(), c, t) && c.Step? && x == c.node
      modifies nodes`maxHigh
      ensures Whole(Heap(), c.up, FixedOne(c, t))
      ensures next == ParentRef(c.up) && (next == root <==> c.up.Top?)
    {
      ghost var h, m := Heap(), Max3(c.node, MaxHigh(t), MaxHigh(c.sibling));
      Look(h, c, t);
      GoUp(h, c, t);
      x.maxHigh := Max(x.high, Max(x.left.maxHigh, x.right.maxHigh));
      Written(h, Heap(), c.up, PlugOne(c, t), c.red, m);
      Look(Heap(), c.up, FixedOne(c, t));
      next := x.parent;
    }

    /** Recomputes max_high on the way from `start` up to the root. */
    method FixupMaxHigh(start: Node, ghost c: Context, ghost t: Tree)
      requires Whole(Heap(), c, t) && Augmented(t) && SiblingsAugmented(c) && start == ParentRef(c)
      modifies nodes`maxHigh
      ensures Whole(Heap(), Fixed(c, MaxHigh(t)), t)
    {
      var x := start;
      ghost var d, u := c, t;
      while x != root
        invariant Whole(Heap(), d, u) && Augmented(u) && SiblingsAugmented(d) && x == ParentRef(d)
        invariant x == root <==> d.Top?
        invariant Plug(Fixed(d, MaxHigh(u)), u) == Plug(Fixed(c, MaxHigh(t)), t)
        decreases Depth(d)
      {
        FixedOneKeeps(d, u);
        x := FixOne(x, d, u);
        d, u := d.up, FixedOne(d, u);
      }
      ZoomIn(Heap(), Fixed(c, MaxHigh(t)), Top, t);
      ComposeTop(Fixed(c, MaxHigh(t)));
    }

    /** Red parent, red uncle: three nodes change colour. */
    method RecolourFamily(x: Node, y: Node, ghost c: Context, ghost t: Tree) returns (grandparent: Node)
      requires Whole(Heap(), c, t) && t.Fork? && x == t.node && c.Step? && c.up.Step?
      requires c.up.sibling.Fork? && y == c.up.sibling.node
      modifies nodes
      ensures Whole(Heap(), c.up.up, Recoloured(c, t)) && grandparent == c.up.node
    {
      Look(Heap(), c, t);
      PaintParent(x.parent, false, c, t);
      ghost var d, p, e := c.(red := false), PlugOne(c.(red := false), t), c.up.(sibling := Black(c.up.sibling));
      GoUp(Heap(), d, t);
      PaintSibling(y, false, c.up, p);
      GoDown(Heap(), e, p, c.left);
      Look(Heap(), d.(up := e), t);
      grandparent := x.parent.parent;
      PaintParent(grandparent, true, e, p);
      GoUp(Heap(), e.(red := true), p);
    }

    /** Red parent, black uncle, red node on the outer side: two colours and a rotation. */
    method Settle(x: Node, left: bool, ghost c: Context, ghost t: Tree)
      requires Whole(Heap(), c, t) && t.Fork? && x == t.node && c.Step? && c.up.Step? && left == c.left == c.up.left
      modifies nodes
      ensures Whole(Heap(), Down(c.up.up, Settled(c, t), left), t)
    {
      Look(Heap(), c, t);
      PaintParent(x.parent, false, c, t);
      ghost var d, p, e := c.(red := false), PlugOne(c.(red := false), t), c.up.(red := true);
      GoUp(Heap(), d, t);
      Look(Heap(), d, t);
      Look(Heap(), c.up, p);
      PaintParent(x.parent.parent, true, c.up, p);
      GoDown(Heap(), e, p, left);
      Look(Heap(), d.(up := e), t);
      GoUp(Heap(), e, p);
      Look(Heap(), e, p);
      Rotate(x.parent.parent, !left, c.up.up, PlugOne(e, p));
      GoDown(Heap(), c.up.up, Settled(c, t), left);
    }

    /** The insertion loop: pushes the red-red edge upwards until it is gone. */
    method InsertFixup(start: Node, ghost c0: Context, ghost t0: Tree, ghost s: seq<Node>)
      returns (ghost c: Context, ghost t: Tree)
      requires Whole(Heap(), c0, t0) && start == Ref(t0) && Rising(c0, t0) && Indexed(c0, t0, s)
      modifies nodes
      ensures Whole(Heap(), c, t) && Rising(c, t) && Indexed(c, t, s) && (c.Top? || !c.red)
      ensures c0.Top? || !c0.red ==> c == c0 && t == t0
    {
      var x := start;
      c, t := c0, t0;
      Look(Heap(), c, t);
      while x.parent.red
        invariant Whole(Heap(), c, t) && x == Ref(t) && Rising(c, t) && Indexed(c, t, s)
        invariant x.parent == ParentRef(c) && x.parent.red == (c.Step? && c.red)
        invariant c0.Top? || !c0.red ==> c == c0 && t == t0
        decreases Depth(c)
      {
        GrandparentBlack(c, t);
        GoUp(Heap(), c, t);
        Look(Heap(), c.up, PlugOne(c, t));
        x, c, t := InsertStep(x, x.parent == x.parent.parent.left, c, t, s);
        Look(Heap(), c, t);
      }
    }

    /** One round; `left` says whether the red parent is a left child. The two cases mirror each other. */
    method InsertStep(start: Node, left: bool, ghost c0: Context, ghost t0: Tree, ghost s: seq<Node>)
      returns (x: Node, ghost c: Context, ghost t: Tree)
      requires Whole(Heap(), c0, t0) && start == Ref(t0) && Rising(c0, t0) && Indexed(c0, t0, s)
      requires c0.Step? && c0.red && c0.up.Step? && left == c0.up.left
      modifies nodes
      ensures Whole(Heap(), c, t) && x == Ref(t) && Rising(c, t) && Indexed(c, t, s) && Depth(c) < Depth(c0)
    {
      x, c, t := start, c0, t0;
      Look(Heap(), c, t);
      GoUp(Heap(), c, t);
      Look(Heap(), c.up, PlugOne(c, t));
      var y := ChildOf(x.parent.parent, !left);
      if y.red {
        RecolouredRises(c, t);
        IndexedRecoloured(c, t, s);
        x := RecolourFamily(x, y, c, t);
        c, t := c.up.up, Recoloured(c, t);
      } else {
        if x == ChildOf(x.parent, !left) {
          x := x.parent;
          StraightenedRises(c, t);
          IndexedStraightened(c, t, s);
          Rotate(x, left, c.up, PlugOne(c, t));
          ghost var u := Straightened(c, t);
          GoDown(Heap(), c.up, u, left);
          c, t := Down(c.up, u, left), Child(u, left);
        }
        SettledRises(c, t);
        IndexedSettled(c, t, s);
        Settle(x, left, c, t);
        c := Down(c.up.up, Settled(c, t), left);
      }
    }

    /** Attaches a new node, recomputes max_high above it and paints it red. */
    method LinkLeaf(x: Node, ghost t0: Tree) returns (ghost c: Context, ghost t: Tree)
      requires Whole(Heap(), Top, t0) && WellFormed(t0)
      requires x in nodes && x !in Nodes(t0) && x != nil && x != root && x.maxHigh == x.high && !x.red
      modifies nodes
      ensures Whole(Heap(), c, t) && Ref(t) == x
      ensures Rising(c, t) && Indexed(c, t, InsertSorted(Inorder(t0), x))
      ensures SortedByKey(InsertSorted(Inorder(t0), x))
      ensures SingleUpTo(t0, x.key) ==> c.Step? && !c.red && OnTheRight(Plug(c, t), t0.node)
    {
      c := RecursiveInsert(x, t0);
      ghost var placed := c;
      hide WellFormed, Whole, SingleUpTo, OnTheRight;
      LeafRises(c, x);
      InsertionSorted(c, x);
      t := Fork(Leaf, x, false, x.high, Leaf);
      Look(Heap(), c, t);
      FixupMaxHigh(x.parent, c, t);
      c := Fixed(c, x.high);
      Paint(x, true, c, t);
      t := t.(red := true);
      if SingleUpTo(t0, x.key) {
        SingleGrown(placed, t0, x, x.high, t);
      }
    }

    method BlackenTop(ghost c: Context, ghost t: Tree)
      requires Whole(Heap(), c, t) && Plug(c, t).Fork?
      modifies nodes
      ensures Whole(Heap(), Top, Black(Plug(c, t)))
    {
      ZoomOut(Heap(), c, t);
      Look(Heap(), Top, Plug(c, t));
      Paint(root.left, false, Top, Plug(c, t));
    }

    /** Everything insertion does to the shape. */
    method InsertNode(x: Node, ghost t0: Tree) returns (ghost u: Tree)
      requires Whole(Heap(), Top, t0) && WellFormed(t0)
      requires x in nodes && x !in Nodes(t0) && x != nil && x != root && x.maxHigh == x.high && !x.red && Labelled(x)
      modifies nodes
      ensures Whole(Heap(), Top, u) && WellFormed(u)
      ensures Inorder(u) == InsertSorted(Inorder(t0), x) && Nodes(u) == Nodes(t0) + {x}
      ensures SingleUpTo(t0, x.key) ==> OnTheRight(u, t0.node)
    {
      ghost var c, t := LinkLeaf(x, t0);
      c, t := InsertFixup(x, c, t, InsertSorted(Inorder(t0), x));
      Inserted(t0, x, c, t);
      BlackenTop(c, t);
      u := Black(Plug(c, t));
    }

    /** Adds one interval: the nodes in key order are the old ones with the new node sorted in. */
    method Insert(newInterval: Interval) returns (newNode: Node)
      requires Valid()
      modifies this`tree, this`nodes, nodes
      ensures Valid() && fresh(newNode) && newNode.storedInterval == newInterval
      ensures nodes == old(nodes) + {newNode}
      ensures Inorder(tree) == InsertSorted(old(Inorder(tree)), newNode)
      ensures old(SingleUpTo(tree, newInterval.low)) ==> OnTheRight(tree, old(tree).node)
    {
      newNode := new Node(newInterval);
      AddNode(newNode);
    }

    method AddNode(x: Node)
      requires Valid() && x !in nodes && x.maxHigh == x.high && !x.red && Labelled(x)
      modifies this`tree, this`nodes, nodes, x
      ensures Valid() && nodes == old(nodes) + {x}
      ensures Inorder(tree) == InsertSorted(old(Inorder(tree)), x)
      ensures old(SingleUpTo(tree, x.key)) ==> OnTheRight(tree, old(tree).node)
    {
      ghost var u := AdoptAndInsert(x);
      Become(u, {});
    }

    method AdoptAndInsert(x: Node) returns (ghost u: Tree)
      requires Valid() && x !in nodes && x.maxHigh == x.high && !x.red && Labelled(x)
      modifies this`nodes, nodes, x
      ensures Idle() && Whole(Heap(), Top, u) && WellFormed(u)
      ensures nodes == old(nodes) + {x} == Nodes(u) + {nil, root}
      ensures Inorder(u) == InsertSorted(Inorder(tree), x)
      ensures SingleUpTo(tree, x.key) ==> OnTheRight(u, tree.node)
    {
      hide Whole, WellFormed, SingleUpTo, OnTheRight;
      Adopt(x);
      u := InsertNode(x, tree);
    }

    /** The parts of the invariant that the shape is not concerned with. */
    ghost predicate Idle()
      reads this`recursionNodeStack, this`recursionNodeStackSize, this`recursionNodeStackTop
    {
      nil.storedInterval == null && root.storedInterval == null &&
      recursionNodeStack.Length == recursionNodeStackSize && recursionNodeStackSize >= 1 && recursionNodeStackTop == 1
    }

    /** The new shape becomes the tree, and the nodes `z` are given up. */
    ghost method Become(t: Tree, z: set<Node>)
      requires Idle() && Whole(Heap(), Top, t) && WellFormed(t) && nodes == Nodes(t) + {nil, root} + z
      requires z !! Nodes(t) + {nil, root}
      modifies this`tree, this`nodes
      ensures Valid() && tree == t && nodes == old(nodes) - z
    {
      var h := Heap();
      tree := t;
      nodes := Nodes(t) + {nil, root};
      Forgotten(h, Heap(), z, t);
    }

    lemma Forgotten(h: Heap, k: Heap, z: set<Node>, t: Tree)
      requires Whole(h, Top, t) && ChangedOnly(h, k, z) && z !! Nodes(t) + {nil, root}
      ensures Whole(k, Top, t)
    {
      if t.Fork? {
        Reparented(h, k, z, t, root, root);
      }
    }

    ghost method Adopt(x: Node)
      requires Whole(Heap(), Top, tree) && x !in nodes && Nodes(tree) <= nodes && nil in nodes && root in nodes
      modifies this`nodes
      ensures nodes == old(nodes) + {x} && Whole(Heap(), Top, tree)
    {
      var h := Heap();
      nodes := nodes + {x};
      Forgotten(h, Heap(), {x}, tree);
    }

    // ---------- deletion: restoring the balance ----------

    /** What the code sees of the sibling's children. */
    lemma LookNephews(h: Heap, c: Context, t: Tree)
      requires Whole(h, c, t) && c.Step? && c.sibling.Fork?
      ensures var w := c.sibling.node; var l, r := Ref(c.sibling.left), Ref(c.sibling.right);
        w in h && l in h && r in h && h[w].left == l && h[w].right == r && h[w].parent == c.node &&
        h[l].red == IsRed(c.sibling.left) && h[r].red == IsRed(c.sibling.right) &&
        (l == nil <==> c.sibling.left.Leaf?) && (r == nil <==> c.sibling.right.Leaf?)
    {
      assert Rep(h, c.sibling, c.node);
      Read(h, c.sibling.left, c.sibling.node);
      Read(h, c.sibling.right, c.sibling.node);
    }

    /** The focus `x` may be nil: then nil's own parent link records where it hangs. */
    ghost predicate At(h: Heap, x: Node, c: Context, t: Tree) {
      Whole(h, c, t) && x == Ref(t) && h[x].parent == ParentRef(c)
    }

    lemma AtAgain(h: Heap, k: Heap, x: Node, c: Context, d: Context, t: Tree)
      requires At(h, x, c, t) && Whole(k, d, t) && ParentRef(d) == ParentRef(c)
      requires k[nil].parent == h[nil].parent
      ensures At(k, x, d, t)
    {
      Look(k, d, t);
    }

    /** Red sibling: the sibling becomes the grandparent, and a black nephew the new sibling. */
    method LiftSibling(x: Node, w: Node, left: bool, ghost c: Context, ghost t: Tree)
      requires At(Heap(), x, c, t) && c.Step? && left == c.left && c.sibling.Fork? && w == c.sibling.node
      modifies nodes
      ensures var u := SiblingUp(c, t);
        u.Fork? && Child(u, c.left).Fork? && Child(Child(u, c.left), c.left) == t &&
        At(Heap(), x, Down(Down(c.up, u, c.left), Child(u, c.left), c.left), t)
    {
      ghost var h, p := Heap(), c.node;
      PaintSibling(w, false, c, t);
      ghost var d := c.(sibling := Black(c.sibling));
      AtAgain(h, Heap(), x, c, d, t);
      PaintParent(x.parent, true, d, t);
      ghost var e := d.(red := true);
      AtAgain(h, Heap(), x, c, e, t);
      GoUp(Heap(), e, t);
      Rotate(x.parent, left, c.up, PlugOne(e, t));
      ghost var u := SiblingUp(c, t);
      GoDown(Heap(), c.up, u, c.left);
      GoDown(Heap(), Down(c.up, u, c.left), Child(u, c.left), c.left);
      AtAgain(h, Heap(), x, c, Down(Down(c.up, u, c.left), Child(u, c.left), c.left), t);
    }

    method PaintNephew(n: Node, left: bool, red: bool, ghost c: Context, ghost t: Tree)
      requires Whole(Heap(), c, t) && c.Step? && c.sibling.Fork? && Child(c.sibling, left).Fork? &&
        n == Child(c.sibling, left).node
      requires !red
      modifies nodes`red
      ensures Whole(Heap(), c.(sibling := NephewPainted(c.sibling, left)), t)
    {
      ghost var p := PlugOne(c, t);
      ghost var d := Down(c.up, p, !c.left);
      ghost var e := Down(d, c.sibling, left);
      GoUp(Heap(), c, t);
      GoDown(Heap(), c.up, p, !c.left);
      GoDown(Heap(), d, c.sibling, left);
      Paint(n, red, e, Child(c.sibling, left));
      GoUp(Heap(), e, Black(Child(c.sibling, left)));
      ghost var w := NephewPainted(c.sibling, left);
      GoUp(Heap(), d, w);
      GoDown(Heap(), c.up, PlugOne(c.(sibling := w), t), c.left);
    }

    method RotateSibling(w: Node, left: bool, ghost c: Context, ghost t: Tree)
      requires Whole(Heap(), c, t) && c.Step? && c.sibling.Fork? && w == c.sibling.node && Child(c.sibling, !left).Fork?
      modifies nodes
      ensures Whole(Heap(), c.(sibling := Rotated(c.sibling, left)), t)
      ensures nil.parent == old(nil.parent)
    {
      ghost var p := PlugOne(c, t);
      GoUp(Heap(), c, t);
      GoDown(Heap(), c.up, p, !c.left);
      ghost var d := Down(c.up, p, !c.left);
      Rotate(w, left, d, c.sibling);
      ghost var w' := Rotated(c.sibling, left);
      GoUp(Heap(), d, w');
      GoDown(Heap(), c.up, PlugOne(c.(sibling := w'), t), c.left);
    }

    /** Inner nephew red: it changes places with the sibling, whose outer child becomes red. */
    method TurnNephew(x: Node, w: Node, left: bool, ghost c: Context, ghost t: Tree)
      requires At(Heap(), x, c, t) && c.Step? && left == c.left
      requires c.sibling.Fork? && w == c.sibling.node && Child(c.sibling, left).Fork?
      modifies nodes
      ensures At(Heap(), x, c.(sibling := NephewOut(c.sibling, left)), t)
    {
      hide Whole;
      ghost var h := Heap();
      LookNephews(h, c, t);
      PaintNephew(ChildOf(w, left), left, false, c, t);
      ghost var v := NephewPainted(c.sibling, left);
      ghost var d := c.(sibling := v);
      PaintSibling(w, true, d, t);
      RotateSibling(w, !left, c.(sibling := NephewPainted(c.sibling.(red := true), left)), t);
      AtAgain(h, Heap(), x, c, c.(sibling := NephewOut(c.sibling, left)), t);
    }

    /** The three colours that prepare the last rotation. */
    method PaintForRotation(x: Node, w: Node, left: bool, ghost c: Context, ghost t: Tree)
      requires At(Heap(), x, c, t) && c.Step? && left == c.left
      requires c.sibling.Fork? && w == c.sibling.node && Child(c.sibling, !left).Fork?
      modifies nodes`red
      ensures At(Heap(), x, c.(red := false, sibling := NephewPainted(c.sibling.(red := c.red), !left)), t)
    {
      ghost var h := Heap();
      Look(h, c, t);
      PaintSibling(w, x.parent.red, c, t);
      ghost var d := c.(sibling := c.sibling.(red := c.red));
      AtAgain(h, Heap(), x, c, d, t);
      PaintParent(x.parent, false, d, t);
      ghost var e := d.(red := false);
      LookNephews(Heap(), e, t);
      PaintNephew(ChildOf(w, !left), !left, false, e, t);
      AtAgain(h, Heap(), x, c, e.(sibling := NephewPainted(e.sibling, !left)), t);
    }

    /** Outer nephew red: three colours and a rotation at the parent end the deletion. */
    method Compensate(x: Node, w: Node, left: bool, ghost c: Context, ghost t: Tree)
      requires At(Heap(), x, c, t) && c.Step? && left == c.left
      requires c.sibling.Fork? && w == c.sibling.node && Child(c.sibling, !left).Fork?
      modifies nodes
      ensures Whole(Heap(), c.up, Compensated(c, t))
    {
      PaintForRotation(x, w, left, c, t);
      ghost var f := c.(red := false, sibling := NephewPainted(c.sibling.(red := c.red), !left));
      GoUp(Heap(), f, t);
      Rotate(x.parent, left, c.up, PlugOne(f, t));
    }

    /** Makes sure the sibling is black, by a rotation at the parent if it is not. */
    method BlackSibling(x: Node, left: bool, ghost c0: Context, ghost t: Tree, ghost s: seq<Node>, ghost top: Node)
      returns (w: Node, ghost c: Context)
      requires At(Heap(), x, c0, t) && Sinking(c0, t) && Indexed(c0, t, s) && !IsRed(t)
      requires c0.Step? && left == c0.left && Ref(Plug(c0, t)) == top
      modifies nodes
      ensures At(Heap(), x, c, t) && Sinking(c, t) && Indexed(c, t, s) && c.Step? && c.left == left
      ensures c.sibling.Fork? && w == c.sibling.node && !c.sibling.red
      ensures c == c0 || c.red
      ensures Ref(Plug(c, t)) == top || c.node == top
    {
      c := c0;
      SiblingExists(c, t);
      Look(Heap(), c, t);
      w := ChildOf(x.parent, !left);
      if w.red {
        SiblingUpSinks(c, t);
        IndexedSiblingUp(c, t, s);
        LiftSibling(x, w, left, c, t);
        ghost var u := SiblingUp(c, t);
        if c.up.Step? {
          TopNode(c.up, PlugOne(c, t), u);
        }
        PlugDown(c.up, u, left);
        c := Down(Down(c.up, u, left), Child(u, left), left);
        SiblingExists(c, t);
        Look(Heap(), c, t);
        w := ChildOf(x.parent, !left);
      }
    }

    /** A red nephew: at most two rotations end the shortage, and the cached top node is black. */
    method MakeGood(x: Node, left: bool, w0: Node, ghost top: Node, ghost c0: Context, ghost t0: Tree,
                    ghost s: seq<Node>)
      returns (ghost c: Context, ghost t: Tree)
      requires At(Heap(), x, c0, t0) && Sinking(c0, t0) && Indexed(c0, t0, s) && !IsRed(t0)
      requires c0.Step? && c0.left == left && c0.sibling.Fork? && w0 == c0.sibling.node && !c0.sibling.red
      requires IsRed(c0.sibling.left) || IsRed(c0.sibling.right)
      requires Ref(Plug(c0, t0)) == top || c0.node == top
      modifies nodes
      ensures Whole(Heap(), c, t) && RedBlack(Plug(c, t)) && Indexed(c, t, s)
      ensures top in nodes && top != nil && top != root && !top.red
    {
      hide Whole, RedBlack, Sinking, Indexed;
      c := c0;
      var w := w0;
      LookNephews(Heap(), c, t0);
      if !ChildOf(w, !left).red {
        NephewOutSinks(c, t0);
        IndexedNephewOut(c, t0, s);
        TurnNephew(x, w, left, c, t0);
        c := c.(sibling := NephewOut(c.sibling, left));
        Look(Heap(), c, t0);
        w := ChildOf(x.parent, !left);
      }
      CompensatedIsRedBlack(c, t0);
      IndexedCompensated(c, t0, s);
      Compensate(x, w, left, c, t0);
      t := Compensated(c, t0);
      c := c.up;
      if c.Step? {
        TopNode(c, PlugOne(c0, t0), t);
      }
      TopIsBlack(Heap(), c, t, left, top);
    }

    lemma TopIsBlack(h: Heap, c: Context, t: Tree, left: bool, top: Node)
      requires Whole(h, c, t) && RedBlack(Plug(c, t)) && t.Fork? && Child(t, left).Fork?
      requires (Child(t, left).node == top && !Child(t, left).red) || Ref(Plug(c, t)) == top
      ensures top in h && top != nil && top != root && !h[top].red
    {
      if Child(t, left).node == top && !Child(t, left).red {
        GoDown(h, c, t, left);
        Look(h, Down(c, t, left), Child(t, left));
      } else {
        ZoomOut(h, c, t);
        if c.Step? {
          TopNode(c, t, t);
        }
        Look(h, Top, Plug(c, t));
      }
    }

    /** One round of the deletion loop, its sibling black: either the shortage moves up, or it is made good. */
    method DeleteRound(start: Node, left: bool, w0: Node, top: Node,
                       ghost c0: Context, ghost t0: Tree, ghost s: seq<Node>)
      returns (x: Node, ghost done: bool, ghost c: Context, ghost t: Tree)
      requires At(Heap(), start, c0, t0) && Sinking(c0, t0) && Indexed(c0, t0, s) && !IsRed(t0)
      requires c0.Step? && c0.left == left && c0.sibling.Fork? && w0 == c0.sibling.node && !c0.sibling.red
      requires Ref(Plug(c0, t0)) == top || (c0.node == top && c0.red)
      modifies nodes
      ensures !done ==> At(Heap(), x, c, t) && Sinking(c, t) && Indexed(c, t, s) && c == c0.up
      ensures !done ==> IsRed(t) || (Ref(Plug(c, t)) == top && !c0.red)
      ensures done ==> Whole(Heap(), c, t) && RedBlack(Plug(c, t)) && Indexed(c, t, s)
      ensures done ==> x == top && x in nodes && !x.red
    {
      x, c, t, done := start, c0, t0, false;
      var w := w0;
      LookNephews(Heap(), c, t);
      if !w.right.red && !w.left.red {
        BlackNephewsSink(c, t);
        SiblingPainted(c, t, true, s);
        ghost var h := Heap();
        PaintSibling(w, true, c, t);
        ghost var d := c.(sibling := Red(c.sibling));
        AtAgain(h, Heap(), x, c, d, t);
        x := x.parent;
        IndexedUp(d, t, s);
        GoUp(Heap(), d, t);
        Look(Heap(), c.up, PlugOne(d, t));
        if c.up.Step? {
          TopNode(c.up, PlugOne(c, t), PlugOne(d, t));
        }
        c, t := c.up, PlugOne(d, t);
      } else {
        c, t := MakeGood(x, left, w, top, c, t, s);
        x := top;
        done := true;
      }
    }

    /** The deletion loop. `rootLeftNode` is read once; a rotation may displace that node from the top. */
    method DeleteFixup(start: Node, ghost c0: Context, ghost t0: Tree, ghost s: seq<Node>) returns (ghost u: Tree)
      requires At(Heap(), start, c0, t0) && Sinking(c0, t0) && Indexed(c0, t0, s)
      modifies nodes
      ensures Whole(Heap(), Top, u) && RedBlack(u) && Augmented(u) && Inorder(u) == s
    {
      var x := start;
      ghost var c, t, done := c0, t0, false;
      TopLink(Heap(), c, t);
      Look(Heap(), c, t);
      var rootLeftNode := root.left;
      while !x.red && rootLeftNode != x
        invariant !done ==> At(Heap(), x, c, t) && Sinking(c, t) && Indexed(c, t, s)
        invariant !done ==> (x.red <==> IsRed(t))
        invariant !done ==> IsRed(t) || Ref(Plug(c, t)) == rootLeftNode
        invariant done ==> Whole(Heap(), c, t) && RedBlack(Plug(c, t)) && Indexed(c, t, s)
        invariant done ==> x == rootLeftNode && x in nodes && !x.red
        decreases if done || IsRed(t) then 0 else 1 + Depth(c)
      {
        TopOrNot(Heap(), c, t);
        x, done, c, t := DeleteIteration(x, rootLeftNode, c, t, s);
      }
      if !done && !IsRed(t) {
        TopOrNot(Heap(), c, t);
      }
      u := BlackenFocus(x, done, c, t, s);
    }

    method DeleteIteration(start: Node, top: Node, ghost c0: Context, ghost t0: Tree, ghost s: seq<Node>)
      returns (x: Node, ghost done: bool, ghost c: Context, ghost t: Tree)
      requires At(Heap(), start, c0, t0) && Sinking(c0, t0) && Indexed(c0, t0, s) && !IsRed(t0)
      requires c0.Step? && Ref(Plug(c0, t0)) == top
      modifies nodes
      ensures !done ==> At(Heap(), x, c, t) && Sinking(c, t) && Indexed(c, t, s) && (x.red <==> IsRed(t))
      ensures !done ==> IsRed(t) || (Ref(Plug(c, t)) == top && Depth(c) < Depth(c0))
      ensures done ==> Whole(Heap(), c, t) && RedBlack(Plug(c, t)) && Indexed(c, t, s)
      ensures done ==> x == top && x in nodes && !x.red
    {
      SiblingExists(c0, t0);
      Look(Heap(), c0, t0);
      var left := start == start.parent.left;
      var w;
      w, c := BlackSibling(start, left, c0, t0, s, top);
      x, done, c, t := DeleteRound(start, left, w, top, c, t0, s);
      if !done {
        Look(Heap(), c, t);
      }
    }

    /** The final write of the deletion loop. */
    method BlackenFocus(x: Node, ghost done: bool, ghost c: Context, ghost t: Tree, ghost s: seq<Node>)
      returns (ghost u: Tree)
      requires Whole(Heap(), c, t) && x in nodes && Indexed(c, t, s)
      requires if done then !x.red && RedBlack(Plug(c, t)) else x == Ref(t) && Sinking(c, t) && (c.Top? || IsRed(t))
      modifies x
      ensures Whole(Heap(), Top, u) && RedBlack(u) && Augmented(u) && Inorder(u) == s
    {
      ghost var h := Heap();
      Look(h, c, t);
      x.red := false;
      ghost var v := if done then t else Black(t);
      if !done && t.Fork? {
        Written(h, Heap(), c, t, false, t.maxHigh);
      } else {
        assert Heap() == h;
      }
      if !done {
        SunkIsRedBlack(c, t);
        IndexedBlack(c, t, s);
      }
      ZoomOut(Heap(), c, v);
      AugmentedPlug(c, v);
      u := Plug(c, v);
    }

    lemma TopLink(h: Heap, c: Context, t: Tree)
      requires Whole(h, c, t)
      ensures h[root].left == Ref(Plug(c, t))
    {
      ZoomOut(h, c, t);
      Look(h, Top, Plug(c, t));
    }

    /** The focus is the top of the tree exactly when nothing is around it. */
    lemma TopOrNot(h: Heap, c: Context, t: Tree)
      requires Whole(h, c, t)
      ensures Ref(t) == Ref(Plug(c, t)) <==> c.Top?
    {
      if c.Step? {
        TopNode(c, t, t);
      }
    }

    lemma PlugDown(c: Context, u: Tree, left: bool)
      requires u.Fork? && Child(u, left).Fork?
      ensures Plug(Down(Down(c, u, left), Child(u, left), left), Child(Child(u, left), left)) == Plug(c, u)
    {
    }

    // ---------- walking the tree ----------

    /** The first node in order below `start`. */
    method GetMinimum(start: Node, ghost c: Context, ghost t: Tree) returns (x: Node, ghost d: Context, ghost u: Tree)
      requires Whole(Heap(), c, t) && t.Fork? && start == t.node
      ensures Whole(Heap(), Compose(d, c), u) && Plug(d, u) == t && u.Fork? && x == u.node
      ensures u.left.Leaf? && Before(d) == [] && x == Inorder(t)[0]
    {
      x, d, u := start, Top, t;
      Look(Heap(), c, u);
      while x.left != nil
        invariant Whole(Heap(), Compose(d, c), u) && Plug(d, u) == t && u.Fork? && x == u.node && Before(d) == []
        invariant x.left == Ref(u.left) && (x.left == nil <==> u.left.Leaf?)
        decreases Size(u)
      {
        GoDown(Heap(), Compose(d, c), u, true);
        x := x.left;
        d, u := Down(d, u, true), u.left;
        Look(Heap(), Compose(d, c), u);
        GoDown(Heap(), Compose(d, c), u, true);
        Look(Heap(), Down(Compose(d, c), u, true), u.left);
      }
      PlugInorder(d, u);
    }

    // ---------- deletion: taking the node out ----------

    /** The links that change when `y` is spliced out. */
    method Unlink(y: Node) returns (x: Node)
      requires var e := if y.left == nil then y.right else y.left; e != y.parent && y !in {e, y.parent}
      modifies y.parent, if y.left == nil then y.right else y.left
      ensures x == (if y.left == nil then y.right else y.left)
      ensures var p := y.parent;
        && x.parent == p && x.left == old((if y.left == nil then y.right else y.left).left)
        && x.right == old((if y.left == nil then y.right else y.left).right)
        && x.red == old((if y.left == nil then y.right else y.left).red)
        && x.maxHigh == old((if y.left == nil then y.right else y.left).maxHigh)
        && p.left == (if p == root || old(y.parent.left) == y then x else old(y.parent.left))
        && p.right == (if p == root || old(y.parent.left) == y then old(y.parent.right) else x)
        && p.parent == old(y.parent.parent) && p.red == old(y.parent.red) && p.maxHigh == old(y.parent.maxHigh)
    {
      x := if y.left == nil then y.right else y.left;
      x.parent := y.parent;
      if root == x.parent {
        root.left := x;
      } else {
        if y == y.parent.left {
          y.parent.left := x;
        } else {
          y.parent.right := x;
        }
      }
    }

    /** Takes `y` out of the tree: its only child, or nil, is linked to its parent. */
    method Splice(y: Node, ghost c: Context, ghost t: Tree) returns (x: Node)
      requires Whole(Heap(), c, t) && t.Fork? && y == t.node && (t.left.Leaf? || t.right.Leaf?)
      modifies nodes
      ensures At(Heap(), x, c, OnlyChild(t))
      ensures y.red == old(y.red)
    {
      ghost var h := Heap();
      AboutToSplice(h, c, t);
      x := Unlink(y);
      Spliced(h, Heap(), c, t);
    }

    lemma AboutToSplice(h: Heap, c: Context, t: Tree)
      requires Whole(h, c, t) && t.Fork? && (t.left.Leaf? || t.right.Leaf?)
      ensures var y, p, e := t.node, ParentRef(c), Ref(OnlyChild(t));
        y in h && p in h && e in h && h[y].parent == p && e == (if h[y].left == nil then h[y].right else h[y].left) &&
        e != p && y !in {e, p} && p != nil && (p == root <==> c.Top?) &&
        (c.Top? || c.left <==> h[p].left == y) && (c.Step? && !c.left ==> h[p].right == y)
    {
      Look(h, c, t);
      Read(h, t.left, t.node);
      Read(h, t.right, t.node);
    }

    lemma Spliced(h: Heap, k: Heap, c: Context, t: Tree)
      requires Whole(h, c, t) && t.Fork? && (t.left.Leaf? || t.right.Leaf?)
      requires var e, p := OnlyChild(t), ParentRef(c);
        ChangedOnly(h, k, {Ref(e), p}) && {Ref(e), p} <= h.Keys && {Ref(e), p} <= k.Keys &&
        k[Ref(e)] == h[Ref(e)].(parent := p) && k[p] == Relink(h[p], c, Ref(e))
      ensures At(k, Ref(OnlyChild(t)), c, OnlyChild(t))
    {
      var e, p := OnlyChild(t), ParentRef(c);
      Reparented(h, k, {Ref(e), p}, e, t.node, p);
      Relinked(h, k, {Ref(e), p}, c, t.node, Ref(e));
    }

    /** The links that change when `y` takes the place of `z`. */
    method TakeLinks(y: Node, z: Node)
      requires y !in {z, z.left, z.right, z.parent} && z !in {z.left, z.right, z.parent}
      requires z.left != z.right && z.parent !in {z.left, z.right}
      modifies y, z.left, z.right, z.parent
      ensures y.parent == z.parent && y.left == z.left && y.right == z.right && y.red == old(y.red)
      ensures y.maxHigh == -MAX_TIME
      ensures var l, r, p := z.left, z.right, z.parent;
        && l.parent == y && l.left == old(z.left.left) && l.right == old(z.left.right)
        && l.red == old(z.left.red) && l.maxHigh == old(z.left.maxHigh)
        && r.parent == y && r.left == old(z.right.left) && r.right == old(z.right.right)
        && r.red == old(z.right.red) && r.maxHigh == old(z.right.maxHigh)
        && p.parent == old(z.parent.parent) && p.red == old(z.parent.red) && p.maxHigh == old(z.parent.maxHigh)
        && p.left == (if z == old(z.parent.left) then y else old(z.parent.left))
        && p.right == (if z == old(z.parent.left) then old(z.parent.right) else y)
    {
      y.maxHigh := -MAX_TIME;
      y.left := z.left;
      y.right := z.right;
      y.parent := z.parent;
      z.right.parent := y;
      z.left.parent := y;
      if z == z.parent.left {
        z.parent.left := y;
      } else {
        z.parent.right := y;
      }
    }

    lemma AboutToTake(h: Heap, c: Context, t: Tree, y: Node)
      requires Whole(h, c, t) && t.Fork? && t.left.Fork?
      requires y in h && y !in Nodes(t) && y !in ContextNodes(c) && y != nil && y != root
      ensures var z, l, r, p := t.node, Ref(t.left), Ref(t.right), ParentRef(c);
        {z, l, r, p} <= h.Keys && h[z] == Links(p, l, r, t.red, t.maxHigh) &&
        y !in {z, l, r, p} && z !in {l, r, p} && l != r && p !in {l, r} && l != nil &&
        (c.Top? || c.left <==> h[p].left == z) && (c.Step? && !c.left ==> h[p].right == z)
    {
      Look(h, c, t);
      Read(h, t.left, t.node);
      Read(h, t.right, t.node);
    }

    lemma Taken(h: Heap, k: Heap, c: Context, t: Tree, y: Node, red: bool)
      requires Whole(h, c, t) && t.Fork? && t.left.Fork?
      requires y in h && y !in Nodes(t) && y !in ContextNodes(c) && y != nil && y != root
      requires var l, r, p := Ref(t.left), Ref(t.right), ParentRef(c);
        ChangedOnly(h, k, {y, l, r, p}) && {l, r, p} <= h.Keys && {y, l, r, p} <= k.Keys &&
        k[y] == Links(p, l, r, red, -MAX_TIME) && k[p] == Relink(h[p], c, y) &&
        k[l] == h[l].(parent := y) && k[r] == h[r].(parent := y)
      ensures Whole(k, c, t.(node := y, red := red, maxHigh := -MAX_TIME))
      ensures t.right.Leaf? ==> k[nil].parent == y
      ensures t.right.Fork? ==> k[nil] == h[nil]
    {
      var l, r, p := Ref(t.left), Ref(t.right), ParentRef(c);
      var d := {y, l, r, p};
      Reparented(h, k, d, t.left, t.node, y);
      Reparented(h, k, d, t.right, t.node, y);
      Relinked(h, k, d, c, t.node, y);
    }

    method TakePlace(y: Node, z: Node, ghost c: Context, ghost t: Tree)
      requires Whole(Heap(), c, t) && t.Fork? && t.node == z && t.left.Fork?
      requires y in nodes && y !in Nodes(t) && y !in ContextNodes(c) && y != nil && y != root
      modifies nodes
      ensures Whole(Heap(), c, t.(node := y, red := y.red, maxHigh := -MAX_TIME))
      ensures nil.parent == if t.right.Leaf? then y else old(nil.parent)
      ensures y.red == old(y.red) && z.red == old(z.red)
    {
      ghost var h := Heap();
      AboutToTake(h, c, t, y);
      TakeLinks(y, z);
      Taken(h, Heap(), c, t, y, y.red);
    }

    /** The tree a node is deleted from. */
    ghost predicate Deletable(c: Context, t: Tree, s: seq<Node>) {
      t.Fork? && RedBlack(Plug(c, t)) && Augmented(Plug(c, t)) && Separate(Plug(c, t)) &&
      s == Inorder(Plug(c, t)) && SortedByKey(s)
    }

    /** Deletes a node that has at most one child. */
    method DeleteOuter(z: Node, ghost c: Context, ghost t: Tree, ghost s: seq<Node>) returns (ghost u: Tree)
      requires Whole(Heap(), c, t) && Deletable(c, t, s) && z == t.node && (t.left.Leaf? || t.right.Leaf?)
      modifies nodes
      ensures Whole(Heap(), Top, u) && RedBlack(u) && Augmented(u) && Inorder(u) == Removed(s, z)
    {
      ghost var e := OnlyChild(t);
      ghost var k := Fixed(c, MaxHigh(e));
      NodeRemoved(c, t, s);
      Look(Heap(), c, t);
      var x := Splice(z, c, t);
      FixupMaxHigh(x.parent, c, e);
      FixedContext(c, MaxHigh(e), 0, false);
      if !z.red {
        u := DeleteFixup(x, k, e, Removed(s, z));
      } else {
        u := Plug(k, e);
        ZoomOut(Heap(), k, e);
        AugmentedPlug(k, e);
      }
    }

    /** Splices the successor of `z` out; `x` is what hung below it. */
    method SpliceSuccessor(z: Node, ghost c: Context, ghost t: Tree)
      returns (x: Node, y: Node, ghost d: Context, ghost u: Tree)
      requires Whole(Heap(), c, t) && t.Fork? && z == t.node && t.right.Fork?
      modifies nodes
      ensures u.Fork? && u.left.Leaf? && y == u.node && Plug(d, u) == t.right && Before(d) == []
      ensures At(Heap(), x, Compose(d, Down(c, t, false)), u.right)
      ensures y in nodes && y.red == u.red && y !in
        {nil, root} + Nodes(u.right) + ContextNodes(Compose(d, Down(c, t, false)))
    {
      ghost var j := Down(c, t, false);
      Look(Heap(), c, t);
      GoDown(Heap(), c, t, false);
      y, d, u := GetMinimum(z.right, j, t.right);
      Look(Heap(), Compose(d, j), u);
      x := Splice(y, Compose(d, j), u);
    }

    /** Puts the spliced-out successor in the place of `z`, still with its own colour. */
    method MoveSuccessor(x: Node, y: Node, z: Node, ghost c: Context, ghost t: Tree, ghost d: Context, ghost e: Tree)
      requires t.Fork? && z == t.node && t.left.Fork? && At(Heap(), x, Compose(d, Down(c, t, false)), e)
      requires y in nodes && y !in {nil, root} + Nodes(e) + ContextNodes(Compose(d, Down(c, t, false)))
      modifies nodes
      ensures At(Heap(), x, Compose(d, Joint(c, t, y, y.red)), e)
      ensures y.red == old(y.red) && z.red == t.red
    {
      ghost var j, v := Down(c, t, false), t.(right := Plug(d, e));
      ghost var h := Heap();
      ZoomPart(h, d, j, e);
      GoUp(h, j, Plug(d, e));
      PlugNodes(d, e);
      ComposeNodes(d, j);
      Look(h, c, v);
      TakePlace(y, z, c, v);
      ghost var k := Heap();
      GoDown(k, c, v.(node := y, red := y.red, maxHigh := -MAX_TIME), false);
      ZoomIn(k, d, Joint(c, t, y, y.red), e);
      Look(k, Compose(d, Joint(c, t, y, y.red)), e);
      if e.Leaf? && d.Step? {
        TopNode(d, e, e);
      }
    }

    /** Repaints the node at the joint of two contexts. */
    method PaintJoint(y: Node, red: bool, ghost d: Context, ghost o: Context, ghost t: Tree)
      requires Whole(Heap(), Compose(d, o), t) && o.Step? && o.node == y
      modifies nodes`red
      ensures Whole(Heap(), Compose(d, o.(red := red)), t)
    {
      ZoomPart(Heap(), d, o, t);
      PaintParent(y, red, o, Plug(d, t));
      ZoomIn(Heap(), d, o.(red := red), t);
    }

    lemma {:induction false} ZoomPart(h: Heap, d: Context, o: Context, t: Tree)
      requires Whole(h, Compose(d, o), t)
      ensures Whole(h, o, Plug(d, t))
      decreases d
    {
      if d.Step? {
        GoUp(h, Compose(d, o), t);
        ZoomPart(h, d.up, o, PlugOne(d, t));
      }
    }

    /** Deletes a node that has two children. */
    method DeleteInner(z: Node, ghost c: Context, ghost t: Tree, ghost s: seq<Node>) returns (ghost v: Tree)
      requires Whole(Heap(), c, t) && Deletable(c, t, s) && z == t.node && t.left.Fork? && t.right.Fork?
      modifies nodes
      ensures Whole(Heap(), Top, v) && RedBlack(v) && Augmented(v) && Inorder(v) == Removed(s, z)
    {
      var x, y;
      ghost var d, u;
      x, y, d, u := SpliceSuccessor(z, c, t);
      SuccessorTakesOver(c, t, d, u, s);
      MoveSuccessor(x, y, z, c, t, d, u.right);
      v := Recolour(x, y, z, c, t, d, u, Removed(s, z));
    }

    /** The rest of the deletion: max_high, the colour of the place that was taken, and the balance. */
    method Recolour(x: Node, y: Node, z: Node, ghost c: Context, ghost t: Tree, ghost d: Context, ghost u: Tree,
                    ghost s: seq<Node>)
      returns (ghost v: Tree)
      requires t.Fork? && u.Fork? && u.node == y && y.red == u.red && z.red == t.red && z in nodes
      requires At(Heap(), x, Compose(d, Joint(c, t, y, u.red)), u.right)
      requires SiblingsAugmented(Compose(d, Joint(c, t, y, t.red))) && Augmented(u.right)
      requires var k := Fixed(Compose(d, Joint(c, t, y, t.red)), MaxHigh(u.right));
        Indexed(k, u.right, s) && if u.red then RedBlack(Plug(k, u.right)) else Sinking(k, u.right)
      modifies nodes
      ensures Whole(Heap(), Top, v) && RedBlack(v) && Augmented(v) && Inorder(v) == s
    {
      hide Whole, RedBlack, Sinking, Indexed;
      ghost var e, i, j, m := u.right, Joint(c, t, y, u.red), Joint(c, t, y, t.red), MaxHigh(u.right);
      ComposeParts(d, i);
      ComposeParts(d, j);
      FixupMaxHigh(x.parent, Compose(d, i), e);
      var black := !y.red;
      RepaintedJoint(c, t, y, u.red, d, m);
      PaintJoint(y, z.red, Fixed(d, m), Fixed(i, Carried(d, m)), e);
      FixedContext(Compose(d, j), m, 0, false);
      v := RestoreBalance(x, black, Fixed(Compose(d, j), m), e, s);
    }

    lemma RepaintedJoint(c: Context, t: Tree, y: Node, red: bool, d: Context, m: int)
      requires t.Fork?
      ensures var i, j, q := Joint(c, t, y, red), Joint(c, t, y, t.red), Carried(d, m);
        Fixed(Compose(d, i), m) == Compose(Fixed(d, m), Fixed(i, q)) && Fixed(i, q).Step? && Fixed(i, q).node == y &&
        Compose(Fixed(d, m), Fixed(i, q).(red := t.red)) == Fixed(Compose(d, j), m) &&
        ParentRef(Fixed(Compose(d, j), m)) == ParentRef(Compose(d, i))
    {
      FixedCompose(d, Joint(c, t, y, red), m);
      FixedCompose(d, Joint(c, t, y, t.red), m);
    }

    /** Only the loss of a black node puts the tree out of balance. */
    method RestoreBalance(x: Node, black: bool, ghost c: Context, ghost t: Tree, ghost s: seq<Node>)
      returns (ghost v: Tree)
      requires At(Heap(), x, c, t) && Indexed(c, t, s) && if black then Sinking(c, t) else RedBlack(Plug(c, t))
      modifies nodes
      ensures Whole(Heap(), Top, v) && RedBlack(v) && Augmented(v) && Inorder(v) == s
    {
      if black {
        v := DeleteFixup(x, c, t, s);
      } else {
        v := Plug(c, t);
        ZoomOut(Heap(), c, t);
        AugmentedPlug(c, t);
      }
    }

    /** Deletes one node: the other nodes keep their order. */
    method DeleteNode(z: Node) returns (removed: Interval?)
      requires Valid() && z in Nodes(tree)
      modifies this`tree, this`nodes, nodes
      ensures Valid() && removed == z.storedInterval
      ensures nodes == old(nodes) - {z}
      ensures Inorder(tree) == Removed(old(Inorder(tree)), z)
    {
      removed := z.storedInterval;
      ghost var u := DeleteAt(z, tree);
      Become(u, {z});
    }

    /** Everything deletion does to the shape. */
    method DeleteAt(z: Node, ghost t0: Tree) returns (ghost u: Tree)
      requires Whole(Heap(), Top, t0) && WellFormed(t0) && z in Nodes(t0)
      modifies nodes
      ensures Whole(Heap(), Top, u) && WellFormed(u)
      ensures Inorder(u) == Removed(Inorder(t0), z) && Nodes(u) == Nodes(t0) - {z}
    {
      ghost var c, t := Locate(t0, z);
      ComposeTop(c);
      ZoomIn(Heap(), c, Top, t);
      Look(Heap(), c, t);
      Read(Heap(), t.left, z);
      Read(Heap(), t.right, z);
      assert (Ref(t.left) == nil <==> t.left.Leaf?) && (Ref(t.right) == nil <==> t.right.Leaf?);
      if z.left == nil || z.right == nil {
        u := DeleteOuter(z, c, t, Inorder(t0));
      } else {
        u := DeleteInner(z, c, t, Inorder(t0));
      }
      Deleted(c, t, u);
    }

    // ---------- the overlap query ----------

    /** `t` lies in the heap, below whatever its topmost node has as parent. */
    ghost predicate Laid(h: Heap, t: Tree) {
      nil !in Nodes(t) && (t.Fork? ==> t.node in h && Rep(h, t, h[t.node].parent))
    }

    lemma LaidChildren(h: Heap, t: Tree)
      requires Sentinels(h) && Laid(h, t) && t.Fork?
      ensures Laid(h, t.left) && Laid(h, t.right) && h[t.node].left == Ref(t.left) && h[t.node].right == Ref(t.right)
      ensures Ref(t.left) in h && h[Ref(t.left)].maxHigh == MaxHigh(t.left)
    {
      assert Rep(h, t.left, t.node) && Rep(h, t.right, t.node);
      assert t.right.Fork? ==> h[t.right.node].parent == t.node;
      Read(h, t.left, t.node);
    }

    /** Frame `i` of the explicit stack holds the pending subtree `f`. */
    ghost predicate Framed(h: Heap, f: Pending, i: nat, r: RecursionNode) {
      f.tree.Fork? && Laid(h, f.tree) && r == RecursionNode(f.tree.node, i, f.found)
    }

    ghost predicate StackHolds(h: Heap, p: seq<Pending>)
      reads this`recursionNodeStack, this`recursionNodeStackSize, this`recursionNodeStackTop, recursionNodeStack
    {
      1 <= |p| == recursionNodeStackTop <= recursionNodeStackSize == recursionNodeStack.Length &&
      forall i :: 1 <= i < |p| ==> Framed(h, p[i], i - 1, recursionNodeStack[i])
    }

    /** Makes room if necessary and pushes a frame for the left subtree of `x`. */
    method Push(x: Node, ghost h: Heap, ghost p: seq<Pending>, ghost t: Tree)
      requires StackHolds(h, p) && currentParent == |p| - 1
      requires t.Fork? && x == t.node && Laid(h, t)
      modifies this`recursionNodeStack, this`recursionNodeStackSize, this`recursionNodeStackTop, this`currentParent,
        recursionNodeStack
      ensures StackHolds(h, p + [Pending(t, false)]) && currentParent == |p| && Heap() == old(Heap())
      ensures recursionNodeStack == old(recursionNodeStack) || fresh(recursionNodeStack)
    {
      hide Laid;
      if recursionNodeStackTop == recursionNodeStackSize {
        recursionNodeStackSize := recursionNodeStackSize * 2;
        var larger := new RecursionNode[recursionNodeStackSize](_ => RecursionNode(null, 0, false));
        forall i | 0 <= i < recursionNodeStack.Length {
          larger[i] := recursionNodeStack[i];
        }
        recursionNodeStack := larger;
      }
      recursionNodeStack[recursionNodeStackTop] := RecursionNode(x, currentParent, false);
      currentParent := recursionNodeStackTop;
      recursionNodeStackTop := recursionNodeStackTop + 1;
    }

    /** Notes in the enclosing frame that its left subtree holds an overlap. */
    method MarkEnclosing(ghost h: Heap, ghost p: seq<Pending>)
      requires StackHolds(h, p) && currentParent == |p| - 1
      modifies recursionNodeStack
      ensures StackHolds(h, Marked(p)) && Heap() == old(Heap())
    {
      recursionNodeStack[currentParent] := recursionNodeStack[currentParent].(tryRightBranch := true);
    }

    /** Reports `x` if it overlaps, then goes on with its left or its right subtree. */
    method Visit(x: Node, low: SimTime, high: SimTime, ghost h: Heap, ghost p0: seq<Pending>, ghost t0: Tree,
                 r0: seq<Interval?>)
      returns (result: seq<Interval?>, next: Node, ghost p: seq<Pending>, ghost t: Tree)
      requires h == Heap() && Sentinels(h) && StackHolds(h, p0) && currentParent == |p0| - 1
      requires t0.Fork? && x == t0.node && Laid(h, t0)
      modifies this`recursionNodeStack, this`recursionNodeStackSize, this`recursionNodeStackTop, this`currentParent,
        recursionNodeStack
      ensures recursionNodeStack == old(recursionNodeStack) || fresh(recursionNodeStack)
      ensures h == Heap() && StackHolds(h, p) && currentParent == |p| - 1
      ensures next == Ref(t) && Laid(h, t)
      ensures Total(result, t, p, low, high) == Total(r0, t0, p0, low, high)
      ensures Size(t) + Weight(p) < Size(t0) + Weight(p0)
    {
      result, p := r0, p0;
      LaidChildren(h, t0);
      if Overlap(low, high, x.key, x.high) {
        result := result + [x.storedInterval];
        MarkEnclosing(h, p);
        MarkedWeight(p);
        p := Marked(p);
      } else {
        assert result + Own(t0, low, high) == result;
      }
      if x.left.maxHigh >= low {
        VisitLeft(r0, t0, p0, low, high);
        Push(x, h, p, t0);
        PushedWeight(p, Pending(t0, false));
        p, t := p + [Pending(t0, false)], t0.left;
        next := x.left;
      } else {
        VisitRight(r0, t0, p0, low, high);
        t := t0.right;
        next := x.right;
      }
    }

    /** Pops one frame; `x` is its right subtree if that is to be searched, and nil otherwise. */
    method PopOne(low: SimTime, high: SimTime, ghost h: Heap, ghost p0: seq<Pending>, ghost r: seq<Interval?>)
      returns (x: Node, ghost p: seq<Pending>, ghost t: Tree)
      requires h == Heap() && Sentinels(h) && StackHolds(h, p0) && |p0| > 1
      modifies this`recursionNodeStackTop, this`currentParent, recursionNodeStack
      ensures h == Heap() && StackHolds(h, p) && x == Ref(t) && Laid(h, t)
      ensures |p| == |p0| - 1 && (x != nil ==> currentParent == |p| - 1)
      ensures Total(r, t, p, low, high) == Total(r, Leaf, p0, low, high)
      ensures Size(t) + Weight(p) <= Weight(p0)
    {
      ghost var f := p0[|p0| - 1];
      PopFrame(r, p0, low, high);
      assert Framed(h, f, |p0| - 2, recursionNodeStack[|p0| - 1]);
      LaidChildren(h, f.tree);
      x, p, t := nil, p0[..|p0| - 1], Leaf;
      LowerTop();
      if recursionNodeStack[recursionNodeStackTop].tryRightBranch {
        x := recursionNodeStack[recursionNodeStackTop].startNode.right;
        SetParent(recursionNodeStack[recursionNodeStackTop].parentIndex);
        MarkEnclosing(h, p);
        MarkedWeight(p);
        p, t := Marked(p), f.tree.right;
      }
    }

    method LowerTop()
      requires recursionNodeStackTop > 0
      modifies this`recursionNodeStackTop
      ensures recursionNodeStackTop == old(recursionNodeStackTop) - 1 && Heap() == old(Heap())
    {
      recursionNodeStackTop := recursionNodeStackTop - 1;
    }

    method SetParent(index: nat)
      modifies this`currentParent
      ensures currentParent == index && Heap() == old(Heap())
    {
      currentParent := index;
    }

    /** Without a next node: pops frames until one gives a right subtree to search, or the base is reached. */
    method PopFrames(next: Node, low: SimTime, high: SimTime, ghost h: Heap, ghost p0: seq<Pending>, ghost t0: Tree,
                     ghost r: seq<Interval?>)
      returns (x: Node, ghost p: seq<Pending>, ghost t: Tree)
      requires h == Heap() && Sentinels(h) && StackHolds(h, p0) && next == Ref(t0) && Laid(h, t0)
      requires next != nil ==> currentParent == |p0| - 1
      modifies this`recursionNodeStackTop, this`currentParent, recursionNodeStack
      ensures recursionNodeStack == old(recursionNodeStack)
      ensures h == Heap() && StackHolds(h, p) && x == Ref(t) && Laid(h, t)
      ensures if x != nil then currentParent == |p| - 1 else |p| == 1
      ensures Total(r, t, p, low, high) == Total(r, t0, p0, low, high)
      ensures Size(t) + Weight(p) <= Size(t0) + Weight(p0)
    {
      x, p, t := next, p0, t0;
      var run := x != nil;
      while !run && recursionNodeStackTop > 1
        invariant h == Heap() && StackHolds(h, p) && x == Ref(t) && Laid(h, t) && (run <==> x != nil)
        invariant run ==> currentParent == |p| - 1
        invariant Total(r, t, p, low, high) == Total(r, t0, p0, low, high)
        invariant Size(t) + Weight(p) <= Size(t0) + Weight(p0)
        decreases recursionNodeStackTop
      {
        NilIsLeaf(h, t);
        x, p, t := PopOne(low, high, h, p, r);
        run := x != nil;
      }
    }

    lemma NilIsLeaf(h: Heap, t: Tree)
      requires Laid(h, t)
      ensures Ref(t) == nil <==> t.Leaf?
    {
    }

    /** One iteration of the query: one node is looked at, then the next one is found. */
    method QueryStep(x: Node, low: SimTime, high: SimTime, ghost h: Heap, ghost p0: seq<Pending>, ghost t0: Tree,
                     r0: seq<Interval?>)
      returns (result: seq<Interval?>, next: Node, ghost p: seq<Pending>, ghost t: Tree)
      requires h == Heap() && Sentinels(h) && StackHolds(h, p0) && currentParent == |p0| - 1
      requires t0.Fork? && x == t0.node && Laid(h, t0)
      modifies this`recursionNodeStack, this`recursionNodeStackSize, this`recursionNodeStackTop, this`currentParent,
        recursionNodeStack
      ensures recursionNodeStack == old(recursionNodeStack) || fresh(recursionNodeStack)
      ensures h == Heap() && StackHolds(h, p) && next == Ref(t) && Laid(h, t)
      ensures if next != nil then currentParent == |p| - 1 else |p| == 1
      ensures Total(result, t, p, low, high) == Total(r0, t0, p0, low, high)
      ensures Size(t) + Weight(p) < Size(t0) + Weight(p0)
    {
      ghost var p1, t1;
      result, next, p1, t1 := Visit(x, low, high, h, p0, t0, r0);
      next, p, t := PopFrames(next, low, high, h, p1, t1, result);
    }

    /** The search loop over the explicit stack, which is back at its base in the end. */
    method RunQuery(low: SimTime, high: SimTime, ghost t0: Tree) returns (result: seq<Interval?>)
      requires Sentinels(Heap()) && Laid(Heap(), t0) && root.left == Ref(t0)
      requires StackHolds(Heap(), [Pending(Leaf, false)])
      modifies this`recursionNodeStack, this`recursionNodeStackSize, this`recursionNodeStackTop, this`currentParent,
        recursionNodeStack
      ensures Heap() == old(Heap()) && StackHolds(Heap(), [Pending(Leaf, false)])
      ensures recursionNodeStack == old(recursionNodeStack) || fresh(recursionNodeStack)
      ensures result == Search(t0, low, high)
    {
      result := [];
      var x := root.left;
      SetParent(0);
      ghost var h, t, p := Heap(), t0, [Pending(Leaf, false)];
      TotalAtEnds(t0, p[0], result, low, high);
      while x != nil
        invariant h == Heap() && StackHolds(h, p) && x == Ref(t) && Laid(h, t)
        invariant if x != nil then currentParent == |p| - 1 else |p| == 1
        invariant Total(result, t, p, low, high) == Search(t0, low, high)
        invariant recursionNodeStack == old(recursionNodeStack) || fresh(recursionNodeStack)
        decreases Size(t) + Weight(p)
      {
        NilIsLeaf(h, t);
        result, x, p, t := QueryStep(x, low, high, h, p, t, result);
      }
      NilIsLeaf(h, t);
      TotalAtEnds(t0, p[0], result, low, high);
    }

    /** Reports the stored intervals that overlap [low, high]. */
    method Query(low: SimTime, high: SimTime) returns (result: seq<Interval?>)
      requires Valid()
      modifies this`recursionNodeStack, this`recursionNodeStackSize, this`recursionNodeStackTop, this`currentParent,
        recursionNodeStack
      ensures Valid() && (recursionNodeStack == old(recursionNodeStack) || fresh(recursionNodeStack))
      ensures result == Search(tree, low, high)
      ensures Proper(tree) ==>
        (result == Scan(Preorder(tree), low, high) <==> low > -MAX_TIME || NoneSkipped(tree, high))
    {
      Look(Heap(), Top, tree);
      result := RunQuery(low, high, tree);
      if low == -MAX_TIME {
        ExactIffNoneSkipped(tree, low, high);
      } else if Proper(tree) {
        SearchIsExact(tree, low, high);
      }
    }

    // ---------- neighbours in order ----------

    /** The last node in order below `start`. */
    method GetMaximum(start: Node, ghost c: Context, ghost t: Tree) returns (x: Node)
      requires Whole(Heap(), c, t) && t.Fork? && start == t.node
      ensures x == Inorder(t)[|Inorder(t)| - 1]
    {
      x := start;
      ghost var d, u := Top, t;
      Look(Heap(), c, u);
      while x.right != nil
        invariant Whole(Heap(), Compose(d, c), u) && Plug(d, u) == t && u.Fork? && x == u.node && After(d) == []
        invariant x.right == Ref(u.right) && (x.right == nil <==> u.right.Leaf?)
        decreases Size(u)
      {
        GoDown(Heap(), Compose(d, c), u, false);
        x := x.right;
        d, u := Down(d, u, false), u.right;
        Look(Heap(), Compose(d, c), u);
        GoDown(Heap(), Compose(d, c), u, false);
        Look(Heap(), Down(Compose(d, c), u, false), u.right);
      }
      PlugInorder(d, u);
    }

    /** The next node in order; the root sentinel after the last one. */
    method GetSuccessor(start: Node, ghost c0: Context, ghost t0: Tree) returns (y: Node)
      requires Whole(Heap(), c0, t0) && t0.Fork? && start == t0.node
      ensures var after := Inorder(t0.right) + After(c0); y == if after == [] then root else after[0]
    {
      Look(Heap(), c0, t0);
      GoDown(Heap(), c0, t0, false);
      Look(Heap(), Down(c0, t0, false), t0.right);
      if nil != start.right {
        ghost var d, u;
        y, d, u := GetMinimum(start.right, Down(c0, t0, false), t0.right);
      } else {
        var x := start;
        y := x.parent;
        ghost var c, t := c0, t0;
        while y != nil && x == y.right
          invariant Whole(Heap(), c, t) && t.Fork? && x == t.node && y == ParentRef(c) && After(c) == After(c0)
          invariant y != nil && (c.Top? ==> y.right == nil) && (c.Step? ==> (x == y.right <==> !c.left))
          decreases Depth(c)
        {
          GoUp(Heap(), c, t);
          c, t := c.up, PlugOne(c, t);
          Look(Heap(), c, t);
          x := y;
          y := y.parent;
        }
        Empty(After(c0));
      }
    }

    /** The previous node in order; nil before the first one. */
    method GetPredecessor(start: Node, ghost c0: Context, ghost t0: Tree) returns (y: Node)
      requires Whole(Heap(), c0, t0) && t0.Fork? && start == t0.node
      ensures var before := Before(c0) + Inorder(t0.left);
        y == if before == [] then nil else before[|before| - 1]
    {
      Look(Heap(), c0, t0);
      GoDown(Heap(), c0, t0, true);
      Look(Heap(), Down(c0, t0, true), t0.left);
      if nil != start.left {
        y := GetMaximum(start.left, Down(c0, t0, true), t0.left);
      } else {
        var x := start;
        y := x.parent;
        ghost var c, t, above := c0, t0, false;
        while y != nil && x == y.left
          invariant !above ==> Whole(Heap(), c, t) && t.Fork? && x == t.node && y == ParentRef(c)
          invariant !above ==> Before(c) == Before(c0) && y != nil && (x == y.left <==> c.Top? || c.left)
          invariant above ==> y == nil && Before(c0) == []
          decreases !above, Depth(c)
        {
          x := y;
          y := y.parent;
          if c.Top? {
            above := true;
          } else {
            GoUp(Heap(), c, t);
            c, t := c.up, PlugOne(c, t);
            Look(Heap(), c, t);
          }
        }
        Empty(Before(c0));
      }
    }

    /** A tree with one interval at the least time. */
    static method OneAtLeastTime() returns (index: IntervalTree, first: Interval, ghost a: Node)
      ensures fresh(index) && fresh(index.nodes) && fresh(index.recursionNodeStack) && index.Valid()
      ensures first.low == first.high == a.key == a.high == -MAX_TIME && a.storedInterval == first
      ensures SingleUpTo(index.tree, a.key) && index.tree.node == a
    {
      hide WellFormed, IntervalTree.Whole, IntervalTree.Idle, Inorder, InsertSorted, SingleUpTo, OnTheRight;
      index := new IntervalTree();
      first := new Interval(-MAX_TIME, -MAX_TIME);
      a := index.Insert(first);
      InsertedFirst(index.tree, a);
    }

    /** And with a second one, which is to the right of the first. */
    static method TwoAtLeastTime() returns (index: IntervalTree, first: Interval, second: Interval, ghost a: Node)
      ensures fresh(index) && fresh(index.nodes) && fresh(index.recursionNodeStack) && index.Valid()
      ensures first != second && first.low == first.high == second.low == second.high == -MAX_TIME
      ensures OnTheRight(index.tree, a) && a.storedInterval == first && a.key == a.high == -MAX_TIME
    {
      index, first, a := OneAtLeastTime();
      hide WellFormed, IntervalTree.Whole, IntervalTree.Idle, Inorder, InsertSorted, SingleUpTo, OnTheRight;
      second := new Interval(-MAX_TIME, -MAX_TIME);
      var _ := index.Insert(second);
    }

    /**
     * Two intervals at the least time, of which a query at that time finds only one: the second one is in the right
     * subtree of the first, which has no left subtree.
     */
    static method MissedAtLeastTime() returns (first: Interval, second: Interval, result: seq<Interval?>)
      ensures first != second && first.low == first.high == second.low == second.high == -MAX_TIME
      ensures Overlap(-MAX_TIME, -MAX_TIME, second.low, second.high)
      ensures result == [first]
    {
      var index;
      ghost var a;
      index, first, second, a := TwoAtLeastTime();
      hide WellFormed, IntervalTree.Whole, IntervalTree.Idle, Inorder;
      result := index.Query(-MAX_TIME, -MAX_TIME);
      SearchMisses(index.tree, -MAX_TIME, -MAX_TIME);
      assert Scan([a][1..], -MAX_TIME, -MAX_TIME) == [];
    }

    // ---------- deletion by interval ----------

    method RecursiveSearch(node: Node, interval: Interval, ghost t: Tree) returns (found: Node)
      requires Sentinels(Heap()) && Laid(Heap(), t) && node == Ref(t)
      ensures var r := FirstStoring(Preorder(t), interval); found == if r.Some? then r.value else nil
      ensures found == nil <==> FirstStoring(Preorder(t), interval).None?
      decreases t
    {
      NilIsLeaf(Heap(), t);
      PreorderElements(t);
      if node != nil {
        FirstStoringPreorder(t, interval);
        LaidChildren(Heap(), t);
        if node.storedInterval == interval {
          return node;
        }
        var left := RecursiveSearch(node.left, interval, t.left);
        if left != nil {
          return left;
        }
        var right := RecursiveSearch(node.right, interval, t.right);
        if right != nil {
          return right;
        }
      }
      return nil;
    }

    /** Deletes the first node, in preorder, that stores this very interval; otherwise changes nothing. */
    method DeleteInterval(interval: Interval)
      requires Valid()
      modifies this`tree, this`nodes, nodes
      ensures Valid()
      ensures var r := FirstStoring(Preorder(old(tree)), interval);
        if r.Some? then Inorder(tree) == Removed(Inorder(old(tree)), r.value) && nodes == old(nodes) - {r.value}
        else tree == old(tree) && nodes == old(nodes)
    {
      Look(Heap(), Top, tree);
      PreorderElements(tree);
      var node := SearchFromRoot(interval, tree);
      if node != nil {
        var _ := DeleteNode(node);
      }
    }

    /** The search starts at the root sentinel, which stores no interval. */
    method SearchFromRoot(interval: Interval, ghost t: Tree) returns (found: Node)
      requires Whole(Heap(), Top, t) && root.storedInterval == null
      ensures var r := FirstStoring(Preorder(t), interval); found == if r.Some? then r.value else nil
      ensures found == nil <==> FirstStoring(Preorder(t), interval).None?
    {
      ghost var u := Fork(t, root, false, root.maxHigh, Leaf);
      Look(Heap(), Top, t);
      assert Rep(Heap(), u, nil);
      FirstStoringPreorder(u, interval);
      found := RecursiveSearch(root, interval, u);
    }
  }

  lemma {:induction false} Locate(t: Tree, z: Node) returns (c: Context, u: Tree)
    requires z in Nodes(t)
    ensures Plug(c, u) == t && u.Fork? && u.node == z
  {
    if z == t.node {
      c, u := Top, t;
    } else {
      var left := z in Nodes(t.left);
      var d;
      d, u := Locate(Child(t, left), z);
      c := Compose(d, Down(Top, t, left));
      PlugCompose(d, Down(Top, t, left), u);
    }
  }

  /** After a deletion the tree is well formed with one node less. */
  lemma Deleted(c: Context, t: Tree, u: Tree)
    requires t.Fork? && WellFormed(Plug(c, t)) && Separate(Plug(c, t)) && RedBlack(u) && Augmented(u)
    requires Inorder(u) == Removed(Inorder(Plug(c, t)), t.node)
    ensures WellFormed(u) && Nodes(u) == Nodes(Plug(c, t)) - {t.node}
  {
    FocusRemoved(c, t, Inorder(Plug(c, t)));
    SeparatePlug(c, t);
    PlugNodes(c, t);
    InorderElements(u);
    RemovedElements(c, t);
  }

  lemma InsertedFirst(t: Tree, n: Node)
    requires Inorder(t) == InsertSorted(Inorder(Leaf), n) && WellFormed(t) && n.storedInterval != null
    ensures SingleUpTo(t, n.key) && t.node == n
    ensures n.key == n.storedInterval.low && n.high == n.storedInterval.high
  {
    hide RedBlack, Augmented, SortedByKey;
    SizeIsLength(t);
    if t.Fork? {
      SizeIsLength(t.left);
      SizeIsLength(t.right);
      assert Inorder(t)[|Inorder(t.left)|] == t.node;
    }
    assert t.node in Nodes(t);
  }

  lemma {:induction false} AsManyAround(c: Context)
    ensures |Before(c)| + |After(c)| >= Depth(c)
  {
    if c.Step? {
      AsManyAround(c.up);
    }
  }

  lemma NextAfter(c: Context)
    ensures c.Step? && c.left ==> c.node in After(c)
  {
    if c.Step? && c.left {
      assert After(c)[0] == c.node;
    }
  }

  /** The same once max_high is recomputed. */
  lemma SingleGrown(c: Context, t0: Tree, x: Node, m: int, t: Tree)
    requires SingleUpTo(t0, x.key) && Plug(c, Leaf) == t0 && WellFormed(t0)
    requires forall n :: n in After(c) ==> n.key > x.key
    ensures var d := Fixed(c, m); d.Step? && !d.red && OnTheRight(Plug(d, t), t0.node)
  {
    hide WellFormed;
    SinglePlace(c, t0, x);
  }

  /** Next to a single node that is not larger, the new leaf is its right child. */
  lemma SinglePlace(c: Context, t0: Tree, x: Node)
    requires SingleUpTo(t0, x.key) && Plug(c, Leaf) == t0 && WellFormed(t0)
    requires forall n :: n in After(c) ==> n.key > x.key
    ensures c.Step? && c.up.Top? && !c.left && !c.red && c.node == t0.node && c.sibling.Leaf?
  {
    PlugInorder(c, Leaf);
    AsManyAround(c);
    assert Inorder(t0) == [t0.node];
    assert |Before(c)| + |After(c)| == 1;
    assert c.Step? && Depth(c) == 1;
    NextAfter(c);
  }

  /** Once the ascent is over and the top is black, the tree is well formed with one more node. */
  lemma Inserted(t0: Tree, x: Node, c: Context, t: Tree)
    requires WellFormed(t0) && Labelled(x) && Rising(c, t) && (c.Top? || !c.red)
    requires Indexed(c, t, InsertSorted(Inorder(t0), x)) && SortedByKey(InsertSorted(Inorder(t0), x))
    ensures Plug(c, t).Fork?
    ensures var u := Black(Plug(c, t));
      WellFormed(u) && Inorder(u) == InsertSorted(Inorder(t0), x) && Nodes(u) == Nodes(t0) + {x}
  {
    if c.Step? {
      TopNode(c, t, t);
    }
    RisenIsRedBlack(c, t);
    AugmentedPlug(c, t);
    InorderElements(t0);
    InorderElements(Black(Plug(c, t)));
    InsertSortedElements(Inorder(t0), x);
  }

  /** Going down on the side the key comparison picks keeps the new key's neighbours apart. */
  lemma Narrowed(c: Context, u: Tree, z: Node, t: Tree)
    requires u.Fork? && Plug(c, u) == t && SortedByKey(Inorder(t))
    requires forall n :: n in Before(c) ==> n.key <= z.key
    requires forall n :: n in After(c) ==> n.key > z.key
    ensures var d := Down(c, u, u.node.key > z.key);
      (forall n :: n in Before(d) ==> n.key <= z.key) && (forall n :: n in After(d) ==> n.key > z.key)
  {
    PlugInorder(c, u);
    SortedConcat(Before(c) + Inorder(u), After(c));
    SortedConcat(Before(c), Inorder(u));
    SortedChildren(u);
  }

  lemma WhichSide(c: Context, z: Node)
    requires forall n :: n in Before(c) ==> n.key <= z.key
    requires forall n :: n in After(c) ==> n.key > z.key
    ensures c.Step? ==> (c.left <==> c.node.key > z.key)
  {
    if c.Step? {
      if c.left {
        assert After(c)[0] == c.node;
      } else {
        assert Before(c)[|Before(c)| - 1] == c.node;
      }
    }
  }
}
