// Rebalancing, on shapes: what one round of the insertion and of the deletion fix-up does to the
// red-black balance. Heights and colours only; order and max_high are kept by every round alike.

module IntervalTreeBalance {
  import opened IntervalTreeShape
  import opened Sequences

  function Depth(c: Context): nat {
    if c.Top? then 0 else 1 + Depth(c.up)
  }

  function Black(t: Tree): Tree {
    if t.Fork? then t.(red := false) else t
  }

  function Red(t: Tree): Tree {
    if t.Fork? then t.(red := true) else t
  }

  // ---------- what stays the same: order and augmentation ----------

  /** The plugged tree lists the nodes `s` in order, and every max_high is right. */
  ghost predicate Indexed(c: Context, t: Tree, s: seq<Node>) {
    Augmented(t) && AugmentedAround(c, MaxHigh(t)) && Inorder(Plug(c, t)) == s
  }

  lemma IndexedReplaced(c: Context, t: Tree, u: Tree, s: seq<Node>)
    requires Indexed(c, t, s)
    requires Inorder(u) == Inorder(t) && Augmented(u) && MaxHigh(u) == MaxHigh(t)
    ensures Indexed(c, u, s)
  {
    PlugInorder(c, t);
    PlugInorder(c, u);
  }

  lemma IndexedUp(c: Context, t: Tree, s: seq<Node>)
    requires Indexed(c, t, s) && c.Step?
    ensures Indexed(c.up, PlugOne(c, t), s)
  {
  }

  lemma IndexedDown(c: Context, t: Tree, left: bool, s: seq<Node>)
    requires Indexed(c, t, s) && t.Fork?
    ensures Indexed(Down(c, t, left), Child(t, left), s)
  {
  }

  lemma IndexedBlack(c: Context, t: Tree, s: seq<Node>)
    requires Indexed(c, t, s)
    ensures Indexed(c, Black(t), s)
  {
    IndexedReplaced(c, t, Black(t), s);
  }

  lemma IndexedSibling(c: Context, t: Tree, w: Tree, s: seq<Node>)
    requires Indexed(c, t, s) && c.Step?
    requires Inorder(w) == Inorder(c.sibling) && Augmented(w) && MaxHigh(w) == MaxHigh(c.sibling)
    ensures Indexed(c.(sibling := w), t, s)
  {
    PlugInorder(c, t);
    PlugInorder(c.(sibling := w), t);
  }

  lemma IndexedParentPainted(c: Context, t: Tree, red: bool, s: seq<Node>)
    requires Indexed(c, t, s) && c.Step?
    ensures Indexed(c.(red := red), t, s)
  {
    PlugInorder(c, t);
    PlugInorder(c.(red := red), t);
  }

  lemma IndexedRotated(c: Context, t: Tree, left: bool, s: seq<Node>)
    requires Indexed(c, t, s) && t.Fork? && Child(t, !left).Fork?
    ensures Indexed(c, Rotated(t, left), s)
  {
    if left {
      RotatedLeftInorder(t);
      RotatedLeftAugmented(t);
    } else {
      RotatedRightInorder(t);
      RotatedRightAugmented(t);
    }
    IndexedReplaced(c, t, Rotated(t, left), s);
  }

  /** The topmost node of a plugged tree is decided by a non-empty context. */
  lemma {:induction false} TopNode(c: Context, t: Tree, u: Tree)
    requires c.Step?
    ensures Plug(c, t).Fork? && Plug(c, u).Fork? && Plug(c, t).node == Plug(c, u).node
    ensures Plug(c, t).node in ContextNodes(c)
    decreases c
  {
    if c.up.Step? {
      TopNode(c.up, PlugOne(c, t), PlugOne(c, u));
    }
  }

  // ---------- insertion: a red node that may have a red parent ----------

  ghost predicate Rising(c: Context, t: Tree) {
    IsRed(t) && Balanced(t) && NoRedRed(t) && BalancedAround(c, BlackHeight(t)) && ColouredAround(c, false)
  }

  /** The parent of a red parent exists and is black. */
  lemma GrandparentBlack(c: Context, t: Tree)
    requires Rising(c, t) && c.Step? && c.red
    ensures c.up.Step? && !c.up.red
  {
    assert ColouredAround(c.up, true);
  }

  /** Parent and uncle red: the grandparent takes over the red, and the trouble moves up two levels. */
  function Recoloured(c: Context, t: Tree): Tree
    requires c.Step? && c.up.Step?
  {
    PlugOne(c.up.(red := true, sibling := Black(c.up.sibling)), PlugOne(c.(red := false), t))
  }

  lemma RecolouredRises(c: Context, t: Tree)
    requires Rising(c, t) && c.Step? && c.red && c.up.Step? && IsRed(c.up.sibling)
    ensures Rising(c.up.up, Recoloured(c, t))
  {
    assert BalancedAround(c.up, BlackHeight(t)) && ColouredAround(c.up, true);
    var p, u := PlugOne(c.(red := false), t), Black(c.up.sibling);
    assert Balanced(p) && NoRedRed(p) && BlackHeight(p) == BlackHeight(t) + 1;
    assert Balanced(u) && NoRedRed(u);
  }

  /** A red node on the inner side: rotated outwards, with its parent as the new lower node. */
  function Straightened(c: Context, t: Tree): Tree
    requires c.Step? && t.Fork?
  {
    Rotated(PlugOne(c, t), !c.left)
  }

  lemma StraightenedRises(c: Context, t: Tree)
    requires Rising(c, t) && c.Step? && c.red
    ensures var u := Straightened(c, t);
      Rising(Down(c.up, u, !c.left), Child(u, !c.left)) && u.red
  {
    var u := Straightened(c, t);
    assert NoRedRed(t.left) && NoRedRed(t.right);
    assert Balanced(Child(u, !c.left)) && NoRedRed(Child(u, !c.left));
  }

  /** A red node on the outer side of a black grandparent: one rotation and two colours finish. */
  function Settled(c: Context, t: Tree): Tree
    requires c.Step? && c.up.Step? && c.left == c.up.left
  {
    Rotated(PlugOne(c.up.(red := true), PlugOne(c.(red := false), t)), !c.left)
  }

  lemma SettledRises(c: Context, t: Tree)
    requires Rising(c, t) && c.Step? && c.red && c.up.Step? && c.left == c.up.left && !IsRed(c.up.sibling)
    ensures var u := Settled(c, t);
      Child(u, c.left) == t && !u.red && Rising(Down(c.up.up, u, c.left), t)
  {
    assert BalancedAround(c.up, BlackHeight(t)) && ColouredAround(c.up, true);
    var v := Child(Settled(c, t), !c.left);
    assert Balanced(v) && NoRedRed(v) && BlackHeight(v) == BlackHeight(t);
  }

  lemma IndexedRecoloured(c: Context, t: Tree, s: seq<Node>)
    requires Indexed(c, t, s) && c.Step? && c.up.Step?
    ensures Indexed(c.up.up, Recoloured(c, t), s)
  {
    IndexedParentPainted(c, t, false, s);
    var p := PlugOne(c.(red := false), t);
    IndexedUp(c.(red := false), t, s);
    IndexedSibling(c.up, p, Black(c.up.sibling), s);
    IndexedParentPainted(c.up.(sibling := Black(c.up.sibling)), p, true, s);
    IndexedUp(c.up.(red := true, sibling := Black(c.up.sibling)), p, s);
  }

  lemma IndexedStraightened(c: Context, t: Tree, s: seq<Node>)
    requires Indexed(c, t, s) && c.Step? && t.Fork?
    ensures var u := Straightened(c, t);
      u.Fork? && Child(u, !c.left).Fork? && Indexed(Down(c.up, u, !c.left), Child(u, !c.left), s)
  {
    IndexedUp(c, t, s);
    IndexedRotated(c.up, PlugOne(c, t), !c.left, s);
    IndexedDown(c.up, Straightened(c, t), !c.left, s);
  }

  lemma IndexedSettled(c: Context, t: Tree, s: seq<Node>)
    requires Indexed(c, t, s) && c.Step? && c.up.Step? && c.left == c.up.left
    ensures var u := Settled(c, t); u.Fork? && Child(u, c.left) == t && Indexed(Down(c.up.up, u, c.left), t, s)
  {
    IndexedParentPainted(c, t, false, s);
    var p := PlugOne(c.(red := false), t);
    IndexedUp(c.(red := false), t, s);
    IndexedParentPainted(c.up, p, true, s);
    var g := PlugOne(c.up.(red := true), p);
    IndexedUp(c.up.(red := true), p, s);
    IndexedRotated(c.up.up, g, !c.left, s);
    IndexedDown(c.up.up, Settled(c, t), c.left, s);
  }

  /** No red parent any more: with its top painted black the tree is a red-black tree. */
  lemma RisenIsRedBlack(c: Context, t: Tree)
    requires Rising(c, t) && (c.Top? || !c.red)
    ensures RedBlack(Black(Plug(c, t)))
  {
    if c.Step? {
      RedBlackPlug(c, t);
    }
  }

  /** What InsertSorted yields is sorted again. */
  lemma InsertionSorted(c: Context, z: Node)
    requires SortedByKey(Inorder(Plug(c, Leaf)))
    requires forall n :: n in Before(c) ==> n.key <= z.key
    requires forall n :: n in After(c) ==> n.key > z.key
    ensures SortedByKey(InsertSorted(Inorder(Plug(c, Leaf)), z))
  {
    PlugInorder(c, Leaf);
    assert Before(c) + [] + After(c) == Before(c) + After(c);
    InsertSortedSplit(Before(c), After(c), z);
    SortedInsertion(Before(c), After(c), z);
  }

  /** A freshly attached red leaf, once the max_high above it are recomputed, starts the ascent. */
  lemma LeafRises(c: Context, z: Node)
    requires RedBlack(Plug(c, Leaf)) && Augmented(Plug(c, Leaf))
    requires forall n :: n in Before(c) ==> n.key <= z.key
    requires forall n :: n in After(c) ==> n.key > z.key
    ensures SiblingsAugmented(c)
    ensures var t := Fork(Leaf, z, false, z.high, Leaf);
      Augmented(t) && Rising(Fixed(c, z.high), t.(red := true)) &&
      Indexed(Fixed(c, z.high), t.(red := true), InsertSorted(Inorder(Plug(c, Leaf)), z))
  {
    hide *;
    LeafAugmented(c, z);
    LeafBalanced(c, z);
    LeafOrdered(c, z);
    LeafIndexed(Fixed(c, z.high), z);
  }

  lemma LeafAugmented(c: Context, z: Node)
    requires Augmented(Plug(c, Leaf))
    ensures SiblingsAugmented(c) && AugmentedAround(Fixed(c, z.high), z.high)
  {
    AugmentedPlug(c, Leaf);
    hide Plug, Fixed;
    AugmentedAroundSiblings(c, MaxHigh(Leaf));
    FixedContext(c, z.high, 0, false);
  }

  lemma LeafBalanced(c: Context, z: Node)
    requires RedBlack(Plug(c, Leaf))
    ensures Rising(Fixed(c, z.high), Fork(Leaf, z, true, z.high, Leaf))
  {
    RedBlackPlug(c, Leaf);
    hide RedBlack, Plug, Fixed, BalancedAround, ColouredAround;
    FixedContext(c, z.high, 0, false);
  }

  lemma LeafOrdered(c: Context, z: Node)
    requires forall n :: n in Before(c) ==> n.key <= z.key
    requires forall n :: n in After(c) ==> n.key > z.key
    ensures Inorder(Plug(Fixed(c, z.high), Fork(Leaf, z, true, z.high, Leaf))) ==
            InsertSorted(Inorder(Plug(c, Leaf)), z)
  {
    var t := Fork(Leaf, z, true, z.high, Leaf);
    assert Inorder(t) == [z];
    hide Plug, Fixed, Before, After, InsertSorted;
    FixedContext(c, z.high, 0, false);
    PlugInorder(c, Leaf);
    PlugInorder(Fixed(c, z.high), t);
    assert Before(c) + [] + After(c) == Before(c) + After(c);
    InsertSortedSplit(Before(c), After(c), z);
  }

  lemma LeafIndexed(c: Context, z: Node)
    requires AugmentedAround(c, z.high)
    ensures var t := Fork(Leaf, z, false, z.high, Leaf);
      Augmented(t) && t.(red := true) == Fork(Leaf, z, true, z.high, Leaf) &&
      Indexed(c, t.(red := true), Inorder(Plug(c, t.(red := true))))
  {
    hide Plug, AugmentedAround;
  }

  // ---------- deletion: a subtree one black node short ----------

  ghost predicate Sinking(c: Context, t: Tree) {
    Balanced(t) && NoRedRed(Black(t)) && BalancedAround(c, BlackHeight(t) + 1) && ColouredAround(c, false)
  }

  lemma SunkIsRedBlack(c: Context, t: Tree)
    requires Sinking(c, t) && (c.Top? || IsRed(t))
    ensures RedBlack(Plug(c, Black(t)))
  {
    RedBlackPlug(c, Black(t));
  }

  /** The sibling of a subtree that is one short is a node; if red, it has two black children. */
  lemma SiblingExists(c: Context, t: Tree)
    requires Sinking(c, t) && c.Step?
    ensures c.sibling.Fork? && Balanced(c.sibling) && NoRedRed(c.sibling)
    ensures c.sibling.red ==> !c.red && c.sibling.left.Fork? && c.sibling.right.Fork?
  {
  }

  /** Red sibling: after a rotation at the parent the sibling is black. */
  function SiblingUp(c: Context, t: Tree): Tree
    requires c.Step? && c.sibling.Fork?
  {
    Rotated(PlugOne(c.(red := true, sibling := Black(c.sibling)), t), c.left)
  }

  lemma SiblingUpSinks(c: Context, t: Tree)
    requires Sinking(c, t) && !IsRed(t) && c.Step? && IsRed(c.sibling)
    ensures var u := SiblingUp(c, t); var v := Child(u, c.left);
      v.Fork? && v.node == c.node && v.red && Child(v, c.left) == t && !IsRed(Child(v, !c.left)) &&
      Sinking(Down(Down(c.up, u, c.left), v, c.left), t)
  {
    SiblingExists(c, t);
  }

  /** Black sibling with black children: painted red, and the shortage moves up to the parent. */
  lemma BlackNephewsSink(c: Context, t: Tree)
    requires Sinking(c, t) && !IsRed(t) && c.Step?
    requires c.sibling.Fork? && !c.sibling.red && !IsRed(c.sibling.left) && !IsRed(c.sibling.right)
    ensures Sinking(c.up, PlugOne(c.(sibling := Red(c.sibling)), t))
  {
    assert Balanced(Red(c.sibling)) && NoRedRed(Red(c.sibling));
    if c.up.Step? {
      assert ColouredAround(c.up, c.red);
    }
  }

  /** The sibling with one of its children painted black. */
  function NephewPainted(s: Tree, left: bool): Tree
    requires s.Fork?
  {
    if left then s.(left := Black(s.left)) else s.(right := Black(s.right))
  }

  /** Black sibling with only its inner child red: rotated so that its outer child is red. */
  function NephewOut(s: Tree, left: bool): Tree
    requires s.Fork? && Child(s, left).Fork?
  {
    Rotated(NephewPainted(s.(red := true), left), !left)
  }

  lemma NephewOutSinks(c: Context, t: Tree)
    requires Sinking(c, t) && c.Step? && c.sibling.Fork? && !c.sibling.red
    requires IsRed(Child(c.sibling, c.left)) && !IsRed(Child(c.sibling, !c.left))
    ensures var w := NephewOut(c.sibling, c.left);
      !w.red && IsRed(Child(w, !c.left)) && Sinking(c.(sibling := w), t)
  {
    var s, n := c.sibling, Child(c.sibling, c.left);
    assert Balanced(s) && NoRedRed(s) && ColouredAround(c.up, c.red);
    assert NoRedRed(n) && Balanced(n) && NoRedRed(n.left) && NoRedRed(n.right) && Balanced(n.left) && Balanced(n.right);
    var w := NephewOut(s, c.left);
    var v := Child(w, !c.left);
    assert Balanced(v) && NoRedRed(v) && BlackHeight(v) == BlackHeight(n);
    assert Balanced(w) && NoRedRed(w) && BlackHeight(w) == BlackHeight(s);
  }

  /** Outer nephew red: one rotation at the parent makes up for the missing black node. */
  function Compensated(c: Context, t: Tree): Tree
    requires c.Step? && c.sibling.Fork?
  {
    Rotated(PlugOne(c.(red := false, sibling := NephewPainted(c.sibling.(red := c.red), !c.left)), t), c.left)
  }

  lemma CompensatedIsRedBlack(c: Context, t: Tree)
    requires Sinking(c, t) && !IsRed(t) && c.Step?
    requires c.sibling.Fork? && !c.sibling.red && IsRed(Child(c.sibling, !c.left))
    ensures var u := Compensated(c, t); var v := Child(u, c.left);
      v.Fork? && v.node == c.node && !v.red && RedBlack(Plug(c.up, u))
  {
    var n, u := Child(c.sibling, !c.left), Compensated(c, t);
    assert Balanced(n) && NoRedRed(n) && Balanced(Black(n)) && NoRedRed(Black(n));
    assert BlackHeight(n) == BlackHeight(t) && BlackHeight(Black(n)) == BlackHeight(t) + 1;
    var v := Child(u, c.left);
    assert Balanced(v) && NoRedRed(v) && BlackHeight(v) == BlackHeight(t) + 1;
    assert ColouredAround(c.up, c.red);
    RedBlackPlug(c.up, u);
  }

  // ---------- deletion keeps order and augmentation ----------

  lemma SiblingPainted(c: Context, t: Tree, red: bool, s: seq<Node>)
    requires Indexed(c, t, s) && c.Step? && c.sibling.Fork?
    ensures Indexed(c.(sibling := c.sibling.(red := red)), t, s)
  {
    IndexedSibling(c, t, c.sibling.(red := red), s);
  }

  lemma IndexedSiblingUp(c: Context, t: Tree, s: seq<Node>)
    requires Indexed(c, t, s) && c.Step? && c.sibling.Fork?
    ensures var u := SiblingUp(c, t);
      u.Fork? && Child(u, c.left).Fork? && Child(Child(u, c.left), c.left) == t &&
      Indexed(Down(Down(c.up, u, c.left), Child(u, c.left), c.left), t, s)
  {
    SiblingPainted(c, t, false, s);
    var d := c.(sibling := Black(c.sibling));
    IndexedParentPainted(d, t, true, s);
    IndexedUp(d.(red := true), t, s);
    IndexedRotated(c.up, PlugOne(d.(red := true), t), c.left, s);
    IndexedDown(c.up, SiblingUp(c, t), c.left, s);
    IndexedDown(Down(c.up, SiblingUp(c, t), c.left), Child(SiblingUp(c, t), c.left), c.left, s);
  }

  lemma NephewPaintedKeeps(s: Tree, left: bool)
    requires s.Fork? && Augmented(s)
    ensures Inorder(NephewPainted(s, left)) == Inorder(s)
    ensures Augmented(NephewPainted(s, left)) && MaxHigh(NephewPainted(s, left)) == MaxHigh(s)
  {
  }

  lemma RotatedKeeps(t: Tree, left: bool)
    requires t.Fork? && Child(t, !left).Fork? && Augmented(t)
    ensures Inorder(Rotated(t, left)) == Inorder(t)
    ensures Augmented(Rotated(t, left)) && MaxHigh(Rotated(t, left)) == MaxHigh(t)
  {
    if left {
      RotatedLeftInorder(t);
      RotatedLeftAugmented(t);
    } else {
      RotatedRightInorder(t);
      RotatedRightAugmented(t);
    }
  }

  lemma IndexedNephewOut(c: Context, t: Tree, s: seq<Node>)
    requires Indexed(c, t, s) && c.Step? && c.sibling.Fork? && Child(c.sibling, c.left).Fork?
    ensures Indexed(c.(sibling := NephewOut(c.sibling, c.left)), t, s)
  {
    var v := c.sibling.(red := true);
    assert Augmented(v) && Inorder(v) == Inorder(c.sibling);
    NephewPaintedKeeps(v, c.left);
    RotatedKeeps(NephewPainted(v, c.left), !c.left);
    IndexedSibling(c, t, NephewOut(c.sibling, c.left), s);
  }

  lemma IndexedCompensated(c: Context, t: Tree, s: seq<Node>)
    requires Indexed(c, t, s) && c.Step? && c.sibling.Fork?
    ensures Indexed(c.up, Compensated(c, t), s)
  {
    SiblingPainted(c, t, c.red, s);
    var v := c.sibling.(red := c.red);
    NephewPaintedKeeps(v, !c.left);
    IndexedSibling(c, t, NephewPainted(v, !c.left), s);
    var d := c.(sibling := NephewPainted(v, !c.left));
    IndexedParentPainted(d, t, false, s);
    IndexedUp(d.(red := false), t, s);
    IndexedRotated(c.up, PlugOne(d.(red := false), t), c.left, s);
  }

  // ---------- deletion: taking the node out ----------

  /** The child that takes the place of a node with at most one child. */
  function OnlyChild(t: Tree): Tree
    requires t.Fork?
  {
    if t.left.Leaf? then t.right else t.left
  }

  /** The order of what is left when the node at the focus goes away. */
  lemma FocusRemoved(c: Context, t: Tree, s: seq<Node>)
    requires t.Fork? && s == Inorder(Plug(c, t)) && Separate(Plug(c, t)) && SortedByKey(s)
    ensures Removed(s, t.node) == (Before(c) + Inorder(t.left)) + (Inorder(t.right) + After(c))
    ensures SortedByKey(Removed(s, t.node))
  {
    var b, a := Before(c) + Inorder(t.left), Inorder(t.right) + After(c);
    PlugInorder(c, t);
    assert s == b + [t.node] + a;
    SeparatePlug(c, t);
    BeforeElements(c);
    InorderElements(t.left);
    ElementsConcat(Before(c), Inorder(t.left));
    RemovedSplit(b, a, t.node);
    SortedRemoval(b, a, t.node);
  }

  lemma {:induction false} SeparatePlug(c: Context, t: Tree)
    requires Separate(Plug(c, t))
    ensures Separate(t) && SeparateContext(c) && Nodes(t) !! ContextNodes(c)
    decreases c
  {
    if c.Step? {
      SeparatePlug(c.up, PlugOne(c, t));
    }
  }

  lemma RemovedElements(c: Context, t: Tree)
    requires t.Fork?
    ensures Elements((Before(c) + Inorder(t.left)) + (Inorder(t.right) + After(c)))
         == ContextNodes(c) + Nodes(t.left) + Nodes(t.right)
  {
    ElementsConcat(Before(c), Inorder(t.left));
    ElementsConcat(Inorder(t.right), After(c));
    ElementsConcat(Before(c) + Inorder(t.left), Inorder(t.right) + After(c));
    InorderElements(t.left);
    InorderElements(t.right);
    ContextElements(c);
  }

  lemma {:induction false} ContextElements(c: Context)
    ensures Elements(Before(c)) + Elements(After(c)) == ContextNodes(c)
  {
    if c.Step? {
      ContextElements(c.up);
      InorderElements(c.sibling);
      assert Elements([c.node]) == {c.node};
      if c.left {
        ElementsConcat([c.node], Inorder(c.sibling));
        ElementsConcat([c.node] + Inorder(c.sibling), After(c.up));
      } else {
        ElementsConcat(Inorder(c.sibling), [c.node]);
        ElementsConcat(Before(c.up), Inorder(c.sibling) + [c.node]);
      }
    }
  }

  /** Splicing out a red node leaves a red-black tree, splicing out a black one a shortage. */
  lemma SplicedOut(c: Context, t: Tree)
    requires t.Fork? && (t.left.Leaf? || t.right.Leaf?)
    requires RedBlack(Plug(c, t))
    ensures var e := OnlyChild(t);
      if t.red then BalancedAround(c, BlackHeight(e)) && ColouredAround(c, IsRed(e)) && Balanced(e) && NoRedRed(e)
      else Sinking(c, e)
  {
    RedBlackPlug(c, t);
    assert ColouredAround(c, t.red);
  }

  /** A node with at most one child goes away. */
  lemma NodeRemoved(c: Context, t: Tree, s: seq<Node>)
    requires t.Fork? && (t.left.Leaf? || t.right.Leaf?)
    requires RedBlack(Plug(c, t)) && Augmented(Plug(c, t)) && Separate(Plug(c, t))
    requires s == Inorder(Plug(c, t)) && SortedByKey(s)
    ensures var e := OnlyChild(t); var k := Fixed(c, MaxHigh(e));
      SiblingsAugmented(c) && Augmented(e) && Indexed(k, e, Removed(s, t.node)) &&
      if t.red then RedBlack(Plug(k, e)) else Sinking(k, e)
  {
    var e := OnlyChild(t);
    var k := Fixed(c, MaxHigh(e));
    SplicedOut(c, t);
    AugmentedPlug(c, t);
    AugmentedAroundSiblings(c, MaxHigh(t));
    FixedContext(c, MaxHigh(e), BlackHeight(e), IsRed(e));
    FixedContext(c, MaxHigh(e), BlackHeight(e) + 1, false);
    FocusRemoved(c, t, s);
    PlugInorder(k, e);
    RedBlackPlug(k, e);
    RegroupPair(Before(c), Inorder(t.left), Inorder(t.right), After(c));
    Empty(Inorder(e));
  }

  /** The context of the successor after it took the place of `t.node`. */
  function Joint(c: Context, t: Tree, y: Node, red: bool): Context
    requires t.Fork?
  {
    Step(c, false, y, red, -MAX_TIME, t.left)
  }

  /** A node with two children goes away: its successor is spliced out and takes its place and colour. */
  lemma SuccessorTakesOver(c: Context, t: Tree, d: Context, u: Tree, s: seq<Node>)
    requires t.Fork? && u.Fork? && u.left.Leaf? && t.right == Plug(d, u) && Before(d) == []
    requires RedBlack(Plug(c, t)) && Augmented(Plug(c, t)) && Separate(Plug(c, t))
    requires s == Inorder(Plug(c, t)) && SortedByKey(s)
    ensures var o := Compose(d, Joint(c, t, u.node, t.red)); var k := Fixed(o, MaxHigh(u.right));
      SiblingsAugmented(o) && Augmented(u.right) && Indexed(k, u.right, Removed(s, t.node)) &&
      if u.red then RedBlack(Plug(k, u.right)) else Sinking(k, u.right)
  {
    var o := Compose(d, Joint(c, t, u.node, t.red));
    var k := Fixed(o, MaxHigh(u.right));
    TakeoverBalanced(c, t, d, u);
    TakeoverAugmented(c, t, d, u);
    FixedContext(o, MaxHigh(u.right), 0, false);
    TakeoverInorder(c, t, d, u, s);
    PlugInorder(k, u.right);
  }

  lemma TakeoverBalanced(c: Context, t: Tree, d: Context, u: Tree)
    requires t.Fork? && u.Fork? && u.left.Leaf? && t.right == Plug(d, u) && RedBlack(Plug(c, t))
    ensures var k := Fixed(Compose(d, Joint(c, t, u.node, t.red)), MaxHigh(u.right));
      if u.red then RedBlack(Plug(k, u.right)) else Sinking(k, u.right)
  {
    var e, j, j0 := u.right, Joint(c, t, u.node, t.red), Down(c, t, false);
    PlugCompose(d, j0, u);
    SplicedOut(Compose(d, j0), u);
    var h, red := if u.red then BlackHeight(e) else BlackHeight(e) + 1, u.red && IsRed(e);
    ComposeBalance(d, j0, j, h, red);
    FixedContext(Compose(d, j), MaxHigh(e), h, red);
    RedBlackPlug(Fixed(Compose(d, j), MaxHigh(e)), e);
  }

  lemma TakeoverAugmented(c: Context, t: Tree, d: Context, u: Tree)
    requires t.Fork? && u.Fork? && u.left.Leaf? && t.right == Plug(d, u) && Augmented(Plug(c, t))
    ensures SiblingsAugmented(Compose(d, Joint(c, t, u.node, t.red))) && Augmented(u.right)
  {
    var j, j0 := Joint(c, t, u.node, t.red), Down(c, t, false);
    PlugCompose(d, j0, u);
    AugmentedPlug(Compose(d, j0), u);
    AugmentedAroundSiblings(Compose(d, j0), MaxHigh(u));
    ComposeParts(d, j0);
    ComposeParts(d, j);
  }

  lemma TakeoverInorder(c: Context, t: Tree, d: Context, u: Tree, s: seq<Node>)
    requires t.Fork? && u.Fork? && u.left.Leaf? && t.right == Plug(d, u) && Before(d) == []
    requires Separate(Plug(c, t)) && s == Inorder(Plug(c, t)) && SortedByKey(s)
    ensures var o := Compose(d, Joint(c, t, u.node, t.red));
      Removed(s, t.node) == Before(o) + Inorder(u.right) + After(o) && SortedByKey(Removed(s, t.node))
  {
    var j := Joint(c, t, u.node, t.red);
    ComposeParts(d, j);
    FocusRemoved(c, t, s);
    PlugInorder(d, u);
    Empty([u.node]);
    Empty(Inorder(u));
    RegroupTakeover(Before(c), Inorder(t.left), [u.node], Inorder(u.right), After(d), After(c));
  }
}
