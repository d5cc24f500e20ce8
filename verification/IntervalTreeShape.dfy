// The value-level picture of an interval tree: the nodes, the shape they are linked into,
// and what a correct red-black interval tree is. Nothing in this module touches the heap;
// IntervalTree.dfy shows that the pointer manipulations compute the shapes defined here.

module IntervalTreeShape {
  import MachineWords
  import opened Sequences

  /** The largest simulation time. Its negation is the max_high of the nil sentinel. */
  const MAX_TIME: int := 0x7FFF_FFFF_FFFF_FFFF

  /** Simulation times: the fixed-point range is symmetric around zero. */
  type SimTime = t: int | -MAX_TIME <= t <= MAX_TIME

  /** An interval [low, high]. Identity matters: intervals are looked up by pointer. */
  class Interval {
    const low: SimTime
    const high: SimTime

    constructor (low: SimTime, high: SimTime)
      ensures this.low == low && this.high == high
    {
      this.low, this.high := low, high;
    }
  }

  /** A tree node. Until a node is linked its three links point to itself. */
  class Node {
    const storedInterval: Interval?
    const key: SimTime
    const high: SimTime
    var maxHigh: int
    var red: bool
    var left: Node
    var right: Node
    var parent: Node

    constructor (interval: Interval)
      ensures storedInterval == interval && key == interval.low
      ensures high == interval.high && maxHigh == high && !red
    {
      storedInterval := interval;
      key, high, maxHigh, red := interval.low, interval.high, interval.high, false;
      left, right, parent := this, this, this;
    }

    constructor Sentinel(bound: SimTime)
      ensures storedInterval == null && key == high == maxHigh == bound && !red
      ensures left == right == parent == this
    {
      storedInterval := null;
      key, high, maxHigh, red := bound, bound, bound, false;
      left, right, parent := this, this, this;
    }
  }

  /** A shape: the nodes with the colour and the max_high each is supposed to hold. */
  datatype Tree = Leaf | Fork(left: Tree, node: Node, red: bool, maxHigh: int, right: Tree)

  /** A tree with a hole, read from the hole upwards; `left` says on which side of `node` it is. */
  datatype Context =
    | Top
    | Step(up: Context, left: bool, node: Node, red: bool, maxHigh: int, sibling: Tree)

  function Max(a: int, b: int): int { if a < b then b else a }

  // ---------- plugging a tree into a context ----------

  /** The innermost level only. */
  function PlugOne(c: Context, t: Tree): (u: Tree)
    requires c.Step?
    ensures u.Fork? && u.node == c.node
  {
    if c.left then Fork(t, c.node, c.red, c.maxHigh, c.sibling)
    else Fork(c.sibling, c.node, c.red, c.maxHigh, t)
  }

  function Plug(c: Context, t: Tree): Tree
    decreases c
  {
    if c.Top? then t else Plug(c.up, PlugOne(c, t))
  }

  /** The child of `t` on one side, and the one on the other. */
  function Child(t: Tree, left: bool): Tree
    requires t.Fork?
  {
    if left then t.left else t.right
  }

  /** The context of that child. */
  function Down(c: Context, t: Tree, left: bool): (d: Context)
    requires t.Fork?
    ensures d.Step? && PlugOne(d, Child(t, left)) == t
  {
    Step(c, left, t.node, t.red, t.maxHigh, Child(t, !left))
  }

  /** The context `inner` with its outermost hole filled by `outer`. */
  function Compose(inner: Context, outer: Context): Context {
    if inner.Top? then outer else inner.(up := Compose(inner.up, outer))
  }

  lemma {:induction false} PlugCompose(inner: Context, outer: Context, t: Tree)
    ensures Plug(Compose(inner, outer), t) == Plug(outer, Plug(inner, t))
    decreases inner
  {
    if inner.Step? {
      PlugCompose(inner.up, outer, PlugOne(inner, t));
    }
  }

  lemma {:induction false} ComposeTop(c: Context)
    ensures Compose(c, Top) == c
  {
    if c.Step? {
      ComposeTop(c.up);
    }
  }

  // ---------- the nodes of a shape ----------

  ghost function Nodes(t: Tree): set<Node> {
    match t
    case Leaf => {}
    case Fork(l, n, _, _, r) => Nodes(l) + {n} + Nodes(r)
  }

  ghost function ContextNodes(c: Context): set<Node> {
    if c.Top? then {} else ContextNodes(c.up) + {c.node} + Nodes(c.sibling)
  }

  lemma {:induction false} PlugNodes(c: Context, t: Tree)
    ensures Nodes(Plug(c, t)) == ContextNodes(c) + Nodes(t)
    decreases c
  {
    if c.Step? {
      PlugNodes(c.up, PlugOne(c, t));
    }
  }

  lemma {:induction false} ComposeNodes(d: Context, o: Context)
    ensures ContextNodes(Compose(d, o)) == ContextNodes(d) + ContextNodes(o)
  {
    if d.Step? {
      ComposeNodes(d.up, o);
    }
  }

  /** No node occurs twice in the tree. */
  ghost predicate Separate(t: Tree) {
    match t
    case Leaf => true
    case Fork(l, n, _, _, r) =>
      n !in Nodes(l) && n !in Nodes(r) && Nodes(l) !! Nodes(r) && Separate(l) && Separate(r)
  }

  ghost predicate SeparateContext(c: Context) {
    c.Step? ==>
      c.node !in Nodes(c.sibling) && c.node !in ContextNodes(c.up) && Nodes(c.sibling) !! ContextNodes(c.up) &&
      Separate(c.sibling) && SeparateContext(c.up)
  }

  // ---------- traversal orders ----------

  ghost function Inorder(t: Tree): seq<Node> {
    match t
    case Leaf => []
    case Fork(l, n, _, _, r) => Inorder(l) + [n] + Inorder(r)
  }

  ghost function Preorder(t: Tree): seq<Node> {
    match t
    case Leaf => []
    case Fork(l, n, _, _, r) => [n] + Preorder(l) + Preorder(r)
  }

  /** The nodes that come before the hole in order. */
  ghost function Before(c: Context): seq<Node> {
    if c.Top? then []
    else if c.left then Before(c.up)
    else Before(c.up) + (Inorder(c.sibling) + [c.node])
  }

  /** The nodes that come after the hole in order. */
  ghost function After(c: Context): seq<Node> {
    if c.Top? then []
    else if c.left then ([c.node] + Inorder(c.sibling)) + After(c.up)
    else After(c.up)
  }

  lemma Regroup<T>(a: seq<T>, b: seq<T>, c: seq<T>, d: seq<T>, e: seq<T>)
    ensures a + (b + c + d) + e == a + b + ((c + d) + e)
    ensures a + (b + c + d) + e == (a + (b + c)) + d + e
    ensures b + c + (d + a + e) == (b + c + d) + a + e
  {
  }

  lemma RegroupTakeover<T>(b: seq<T>, l: seq<T>, y: seq<T>, e: seq<T>, f: seq<T>, a: seq<T>)
    ensures (b + (l + y)) + [] + e + (f + a) == (b + l) + ((y + e + f) + a)
  {
  }

  lemma Empty<T>(s: seq<T>)
    ensures [] + s == s && s + [] == s
  {
  }

  lemma RegroupPair<T>(b: seq<T>, l: seq<T>, r: seq<T>, a: seq<T>)
    ensures (b + l) + (r + a) == b + (l + r) + a
  {
  }

  lemma {:induction false} PlugInorder(c: Context, t: Tree)
    ensures Inorder(Plug(c, t)) == Before(c) + Inorder(t) + After(c)
    decreases c
  {
    if c.Step? {
      PlugInorder(c.up, PlugOne(c, t));
      if c.left {
        Regroup(Before(c.up), Inorder(t), [c.node], Inorder(c.sibling), After(c.up));
      } else {
        Regroup(Before(c.up), Inorder(c.sibling), [c.node], Inorder(t), After(c.up));
      }
    }
  }

  lemma {:induction false} InorderElements(t: Tree)
    ensures Elements(Inorder(t)) == Nodes(t)
  {
    match t
    case Leaf =>
    case Fork(l, n, _, _, r) =>
      InorderElements(l);
      InorderElements(r);
      ElementsConcat(Inorder(l), [n]);
      ElementsConcat(Inorder(l) + [n], Inorder(r));
      assert Elements([n]) == {n};
  }

  // ---------- search-tree order ----------

  ghost predicate SortedByKey(s: seq<Node>) {
    forall i, j :: 0 <= i < j < |s| ==> s[i].key <= s[j].key
  }

  /** `z` put into a sorted sequence behind every node whose key is not larger. */
  ghost function InsertSorted(s: seq<Node>, z: Node): seq<Node> {
    if s == [] then [z]
    else if s[0].key > z.key then [z] + s
    else [s[0]] + InsertSorted(s[1..], z)
  }

  lemma {:induction false} InsertSortedElements(s: seq<Node>, z: Node)
    ensures Elements(InsertSorted(s, z)) == Elements(s) + {z}
  {
    assert Elements([z]) == {z};
    if s != [] && s[0].key > z.key {
      ElementsConcat([z], s);
    } else if s != [] {
      var x, t := [s[0]], s[1..];
      InsertSortedElements(t, z);
      assert s == x + t;
      hide Elements;
      ElementsConcat(x, t);
      ElementsConcat(x, InsertSorted(t, z));
    }
  }

  lemma {:induction false} InsertSortedSplit(b: seq<Node>, a: seq<Node>, z: Node)
    requires forall n :: n in b ==> n.key <= z.key
    requires forall n :: n in a ==> n.key > z.key
    ensures InsertSorted(b + a, z) == b + [z] + a
  {
    if b == [] {
      assert b + a == a && b + [z] + a == [z] + a;
    } else {
      assert (b + a)[0] == b[0] && b[0] in b && (b + a)[1..] == b[1..] + a;
      InsertSortedSplit(b[1..], a, z);
      assert [b[0]] + (b[1..] + [z] + a) == b + [z] + a;
    }
  }

  /** The sequence without the first occurrence of `z`. */
  ghost function Removed(s: seq<Node>, z: Node): seq<Node> {
    if s == [] then []
    else if s[0] == z then s[1..]
    else [s[0]] + Removed(s[1..], z)
  }

  lemma {:induction false} RemovedSplit(b: seq<Node>, a: seq<Node>, z: Node)
    requires z !in Elements(b)
    ensures Removed(b + [z] + a, z) == b + a
  {
    if b == [] {
      assert b + [z] + a == [z] + a && b + a == a;
    } else {
      var x, c := b[0], b[1..];
      RemovedSplit(c, a, z);
      assert b == [x] + c && x in Elements(b);
      RemovedBehind(x, c + [z] + a, z);
      assert b + [z] + a == [x] + (c + [z] + a) && b + a == [x] + (c + a);
    }
  }

  lemma RemovedBehind(x: Node, s: seq<Node>, z: Node)
    requires x != z
    ensures Removed([x] + s, z) == [x] + Removed(s, z)
  {
    assert ([x] + s)[1..] == s;
  }

  lemma {:induction false} BeforeElements(c: Context)
    ensures Elements(Before(c)) <= ContextNodes(c)
  {
    if c.Step? {
      BeforeElements(c.up);
      if !c.left {
        InorderElements(c.sibling);
        ElementsConcat(Inorder(c.sibling), [c.node]);
        ElementsConcat(Before(c.up), Inorder(c.sibling) + [c.node]);
        assert Elements([c.node]) == {c.node};
      }
    }
  }

  lemma SortedRemoval(b: seq<Node>, a: seq<Node>, z: Node)
    requires SortedByKey(b + [z] + a)
    ensures SortedByKey(b + a)
  {
    var s, r := b + a, b + [z] + a;
    forall i, j | 0 <= i < j < |s| ensures s[i].key <= s[j].key {
      var k, m := if i < |b| then i else i + 1, if j < |b| then j else j + 1;
      assert s[i] == r[k] && s[j] == r[m];
    }
  }

  lemma SortedInsertion(b: seq<Node>, a: seq<Node>, z: Node)
    requires SortedByKey(b + a)
    requires forall i :: 0 <= i < |b| ==> b[i].key <= z.key
    requires forall i :: 0 <= i < |a| ==> a[i].key > z.key
    ensures SortedByKey(b + [z] + a)
  {
    var s, r := b + a, b + [z] + a;
    forall i, j | 0 <= i < j < |r| ensures r[i].key <= r[j].key {
      var k, m := if i < |b| then i else i - 1, if j < |b| then j else j - 1;
      assert i != |b| ==> r[i] == s[k];
      assert j != |b| ==> r[j] == s[m];
    }
  }

  lemma SortedConcat(a: seq<Node>, b: seq<Node>)
    requires SortedByKey(a + b)
    ensures SortedByKey(a) && SortedByKey(b)
    ensures forall i, j :: 0 <= i < |a| && 0 <= j < |b| ==> a[i].key <= b[j].key
  {
    var s := a + b;
    forall i, j | 0 <= i < j < |a| ensures a[i].key <= a[j].key {
      assert s[i] == a[i] && s[j] == a[j];
    }
    forall i, j | 0 <= i < j < |b| ensures b[i].key <= b[j].key {
      assert s[|a| + i] == b[i] && s[|a| + j] == b[j];
    }
    forall i, j | 0 <= i < |a| && 0 <= j < |b| ensures a[i].key <= b[j].key {
      assert s[i] == a[i] && s[|a| + j] == b[j];
    }
  }

  /** Both children of a sorted tree are sorted, with keys on the right sides of the node's. */
  lemma SortedChildren(t: Tree)
    requires t.Fork? && SortedByKey(Inorder(t))
    ensures SortedByKey(Inorder(t.left)) && SortedByKey(Inorder(t.right))
    ensures forall i :: 0 <= i < |Inorder(t.left)| ==> Inorder(t.left)[i].key <= t.node.key
    ensures forall j :: 0 <= j < |Inorder(t.right)| ==> t.node.key <= Inorder(t.right)[j].key
  {
    var l, r := Inorder(t.left), Inorder(t.right);
    SortedConcat(l + [t.node], r);
    SortedConcat(l, [t.node]);
    forall i | 0 <= i < |l| ensures l[i].key <= t.node.key {
      assert [t.node][0] == t.node;
    }
    forall j | 0 <= j < |r| ensures t.node.key <= r[j].key {
      assert (l + [t.node])[|l|] == t.node;
    }
  }

  // ---------- red-black balance ----------

  predicate IsRed(t: Tree) { t.Fork? && t.red }

  function BlackHeight(t: Tree): nat {
    match t
    case Leaf => 0
    case Fork(l, _, red, _, _) => BlackHeight(l) + if red then 0 else 1
  }

  /** Every path down to a leaf passes the same number of black nodes. */
  ghost predicate Balanced(t: Tree) {
    match t
    case Leaf => true
    case Fork(l, _, _, _, r) => BlackHeight(l) == BlackHeight(r) && Balanced(l) && Balanced(r)
  }

  /** No red node has a red child. */
  ghost predicate NoRedRed(t: Tree) {
    match t
    case Leaf => true
    case Fork(l, _, red, _, r) => (red ==> !IsRed(l) && !IsRed(r)) && NoRedRed(l) && NoRedRed(r)
  }

  ghost predicate RedBlack(t: Tree) {
    Balanced(t) && NoRedRed(t) && !IsRed(t)
  }

  /** The context is balanced around a hole of black height `h`. */
  ghost predicate BalancedAround(c: Context, h: nat) {
    c.Step? ==>
      Balanced(c.sibling) && BlackHeight(c.sibling) == h && BalancedAround(c.up, h + if c.red then 0 else 1)
  }

  /** The context has no red-red edge when the hole is filled with a tree of that colour. */
  ghost predicate ColouredAround(c: Context, red: bool) {
    if c.Top? then !red
    else !(c.red && (red || IsRed(c.sibling))) && NoRedRed(c.sibling) && ColouredAround(c.up, c.red)
  }

  lemma {:induction false} RedBlackPlug(c: Context, t: Tree)
    ensures RedBlack(Plug(c, t)) <==>
      Balanced(t) && NoRedRed(t) && BalancedAround(c, BlackHeight(t)) && ColouredAround(c, IsRed(t))
    decreases c
  {
    if c.Step? {
      RedBlackPlug(c.up, PlugOne(c, t));
    }
  }

  function Size(t: Tree): nat {
    match t
    case Leaf => 0
    case Fork(l, _, _, _, r) => Size(l) + 1 + Size(r)
  }

  function Height(t: Tree): nat {
    match t
    case Leaf => 0
    case Fork(l, _, _, _, r) => 1 + if Height(l) < Height(r) then Height(r) else Height(l)
  }

  lemma {:induction false} HeightByBlackHeight(t: Tree)
    requires Balanced(t) && NoRedRed(t)
    ensures Height(t) <= 2 * BlackHeight(t) + if IsRed(t) then 1 else 0
    ensures Size(t) + 1 >= MachineWords.Pow2(BlackHeight(t))
  {
    match t
    case Leaf =>
    case Fork(l, _, _, _, r) =>
      HeightByBlackHeight(l);
      HeightByBlackHeight(r);
  }

  lemma {:induction false} SizeIsLength(t: Tree)
    ensures Size(t) == |Inorder(t)|
  {
    if t.Fork? {
      SizeIsLength(t.left);
      SizeIsLength(t.right);
    }
  }

  /** height <= 2 * log2(size + 1): the tree's height is logarithmic. */
  lemma LogarithmicHeight(t: Tree)
    requires RedBlack(t)
    ensures exists b: nat :: Height(t) <= 2 * b && MachineWords.Pow2(b) <= Size(t) + 1
  {
    HeightByBlackHeight(t);
  }

  // ---------- the max_high augmentation ----------

  /** The max_high found through a link: that of nil for an empty tree. */
  function MaxHigh(t: Tree): int {
    if t.Fork? then t.maxHigh else -MAX_TIME
  }

  function Max3(n: Node, a: int, b: int): int {
    Max(n.high, Max(a, b))
  }

  ghost predicate Augmented(t: Tree) {
    match t
    case Leaf => true
    case Fork(l, n, _, m, r) => m == Max3(n, MaxHigh(l), MaxHigh(r)) && Augmented(l) && Augmented(r)
  }

  /** What Augmented means: max_high bounds every stored high end (and nil's bound) and is one of them. */
  lemma {:induction false} AugmentedMeansMaximum(t: Tree)
    requires Augmented(t)
    ensures MaxHigh(t) >= -MAX_TIME
    ensures forall n :: n in Nodes(t) ==> n.high <= MaxHigh(t)
    ensures MaxHigh(t) == -MAX_TIME || exists n :: n in Nodes(t) && n.high == MaxHigh(t)
  {
    match t
    case Leaf =>
    case Fork(l, n, _, m, r) =>
      AugmentedMeansMaximum(l);
      AugmentedMeansMaximum(r);
      assert n in Nodes(t);
  }

  ghost predicate SiblingsAugmented(c: Context) {
    c.Step? ==> Augmented(c.sibling) && SiblingsAugmented(c.up)
  }

  /** The context is augmented around a hole whose max_high is `m`. */
  ghost predicate AugmentedAround(c: Context, m: int) {
    c.Step? ==>
      c.maxHigh == Max3(c.node, m, MaxHigh(c.sibling)) && Augmented(c.sibling) && AugmentedAround(c.up, c.maxHigh)
  }

  lemma {:induction false} AugmentedPlug(c: Context, t: Tree)
    ensures Augmented(Plug(c, t)) <==> Augmented(t) && AugmentedAround(c, MaxHigh(t))
    decreases c
  {
    if c.Step? {
      AugmentedPlug(c.up, PlugOne(c, t));
    }
  }

  lemma {:induction false} AugmentedAroundSiblings(c: Context, m: int)
    requires AugmentedAround(c, m)
    ensures SiblingsAugmented(c)
  {
    if c.Step? {
      AugmentedAroundSiblings(c.up, c.maxHigh);
    }
  }

  /** One level plugged, with its max_high recomputed. */
  function FixedOne(c: Context, t: Tree): (u: Tree)
    requires c.Step?
    ensures u.Fork? && u.maxHigh == Max3(u.node, MaxHigh(u.left), MaxHigh(u.right))
  {
    PlugOne(c.(maxHigh := Max3(c.node, MaxHigh(t), MaxHigh(c.sibling))), t)
  }

  lemma FixedOneKeeps(c: Context, t: Tree)
    requires c.Step? && Augmented(t) && SiblingsAugmented(c)
    ensures Augmented(FixedOne(c, t)) && SiblingsAugmented(c.up)
    ensures Plug(Fixed(c, MaxHigh(t)), t) == Plug(Fixed(c.up, MaxHigh(FixedOne(c, t))), FixedOne(c, t))
  {
  }

  /** The context with every max_high on the way up recomputed for a hole of max_high `m`. */
  function Fixed(c: Context, m: int): Context {
    if c.Top? then Top
    else
      var k := Max3(c.node, m, MaxHigh(c.sibling));
      c.(up := Fixed(c.up, k), maxHigh := k)
  }

  lemma {:induction false} FixedContext(c: Context, m: int, h: nat, red: bool)
    ensures SiblingsAugmented(c) ==> AugmentedAround(Fixed(c, m), m)
    ensures BalancedAround(Fixed(c, m), h) <==> BalancedAround(c, h)
    ensures ColouredAround(Fixed(c, m), red) <==> ColouredAround(c, red)
    ensures Before(Fixed(c, m)) == Before(c) && After(Fixed(c, m)) == After(c)
    ensures Fixed(c, m).Top? <==> c.Top?
    ensures c.Step? ==> Fixed(c, m).node == c.node
  {
    if c.Step? {
      FixedContext(c.up, Max3(c.node, m, MaxHigh(c.sibling)), h + if c.red then 0 else 1, c.red);
    }
  }

  /** Recomputation carried through the inner context arrives at the outer one with this max_high. */
  function Carried(d: Context, m: int): int {
    if d.Top? then m else Carried(d.up, Max3(d.node, m, MaxHigh(d.sibling)))
  }

  lemma {:induction false} FixedCompose(d: Context, o: Context, m: int)
    ensures Fixed(Compose(d, o), m) == Compose(Fixed(d, m), Fixed(o, Carried(d, m)))
  {
    if d.Step? {
      FixedCompose(d.up, o, Max3(d.node, m, MaxHigh(d.sibling)));
    }
  }

  lemma {:induction false} ComposeParts(d: Context, o: Context)
    ensures Before(Compose(d, o)) == Before(o) + Before(d)
    ensures After(Compose(d, o)) == After(d) + After(o)
    ensures SiblingsAugmented(Compose(d, o)) <==> SiblingsAugmented(d) && SiblingsAugmented(o)
  {
    if d.Top? {
      Empty(Before(o));
      Empty(After(o));
    } else {
      ComposeParts(d.up, o);
      Grouped(Before(o), Before(d.up), Inorder(d.sibling) + [d.node]);
      Grouped([d.node] + Inorder(d.sibling), After(d.up), After(o));
    }
  }

  /** Balance and colours of a composed context do not depend on which node sits at the joint. */
  lemma {:induction false} ComposeBalance(d: Context, o: Context, p: Context, h: nat, red: bool)
    requires o.Step? && p.Step? && p == o.(node := p.node, maxHigh := p.maxHigh)
    ensures BalancedAround(Compose(d, o), h) <==> BalancedAround(Compose(d, p), h)
    ensures ColouredAround(Compose(d, o), red) <==> ColouredAround(Compose(d, p), red)
  {
    if d.Step? {
      ComposeBalance(d.up, o, p, h + if d.red then 0 else 1, d.red);
    }
  }

  // ---------- rotations on shapes ----------

  function RotatedLeft(t: Tree): Tree
    requires t.Fork? && t.right.Fork?
  {
    var Fork(a, x, rx, _, Fork(b, y, ry, _, c)) := t;
    var m := Max3(x, MaxHigh(a), MaxHigh(b));
    Fork(Fork(a, x, rx, m, b), y, ry, Max3(y, m, MaxHigh(c)), c)
  }

  function RotatedRight(t: Tree): Tree
    requires t.Fork? && t.left.Fork?
  {
    var Fork(Fork(a, x, rx, _, b), y, ry, _, c) := t;
    var m := Max3(y, MaxHigh(b), MaxHigh(c));
    Fork(a, x, rx, Max3(x, MaxHigh(a), m), Fork(b, y, ry, m, c))
  }

  /** The rotation that moves `t` down to the left or to the right. */
  function Rotated(t: Tree, left: bool): Tree
    requires t.Fork? && Child(t, !left).Fork?
  {
    if left then RotatedLeft(t) else RotatedRight(t)
  }

  /** Two neighbouring nodes x and y with the three subtrees hanging off them. */
  ghost predicate FiveApart(a: Tree, x: Node, b: Tree, y: Node, d: Tree) {
    x != y && x !in Nodes(a) && x !in Nodes(b) && x !in Nodes(d) &&
    y !in Nodes(a) && y !in Nodes(b) && y !in Nodes(d) &&
    Nodes(a) !! Nodes(b) && Nodes(a) !! Nodes(d) && Nodes(b) !! Nodes(d) &&
    Separate(a) && Separate(b) && Separate(d)
  }

  lemma RotatedLeftNodes(t: Tree)
    requires t.Fork? && t.right.Fork? && Separate(t)
    ensures FiveApart(t.left, t.node, t.right.left, t.right.node, t.right.right)
    ensures Nodes(t) == Nodes(t.left) + Nodes(t.right.left) + Nodes(t.right.right) + {t.node, t.right.node}
    ensures Nodes(RotatedLeft(t)) == Nodes(t) && Separate(RotatedLeft(t))
  {
    assert Nodes(t.right) == Nodes(t.right.left) + {t.right.node} + Nodes(t.right.right);
    var l := RotatedLeft(t).left;
    assert Nodes(l) == Nodes(t.left) + {t.node} + Nodes(t.right.left);
    assert Separate(l);
  }

  lemma RotatedRightNodes(t: Tree)
    requires t.Fork? && t.left.Fork? && Separate(t)
    ensures FiveApart(t.left.left, t.left.node, t.left.right, t.node, t.right)
    ensures Nodes(t) == Nodes(t.left.left) + Nodes(t.left.right) + Nodes(t.right) + {t.left.node, t.node}
    ensures Nodes(RotatedRight(t)) == Nodes(t) && Separate(RotatedRight(t))
  {
    assert Nodes(t.left) == Nodes(t.left.left) + {t.left.node} + Nodes(t.left.right);
    var r := RotatedRight(t).right;
    assert Nodes(r) == Nodes(t.left.right) + {t.node} + Nodes(t.right);
    assert Separate(r);
  }

  /** A rotation does not change the order of the nodes. */
  lemma RotatedLeftInorder(t: Tree)
    requires t.Fork? && t.right.Fork?
    ensures Inorder(RotatedLeft(t)) == Inorder(t)
  {
    var Fork(a, x, rx, _, Fork(b, y, ry, my, c)) := t;
    var m := Max3(x, MaxHigh(a), MaxHigh(b));
    Regroup([y], Inorder(a), [x], Inorder(b), Inorder(c));
    assert Inorder(Fork(b, y, ry, my, c)) == Inorder(b) + [y] + Inorder(c);
    assert Inorder(Fork(a, x, rx, m, b)) == Inorder(a) + [x] + Inorder(b);
  }

  lemma RotatedRightInorder(t: Tree)
    requires t.Fork? && t.left.Fork?
    ensures Inorder(RotatedRight(t)) == Inorder(t)
  {
    var Fork(Fork(a, x, rx, mx, b), y, ry, _, c) := t;
    var m := Max3(y, MaxHigh(b), MaxHigh(c));
    Regroup([y], Inorder(a), [x], Inorder(b), Inorder(c));
    assert Inorder(Fork(a, x, rx, mx, b)) == Inorder(a) + [x] + Inorder(b);
    assert Inorder(Fork(b, y, ry, m, c)) == Inorder(b) + [y] + Inorder(c);
  }

  /** A rotation recomputes the two max_high it disturbs; the maximum of the whole stays. */
  lemma RotatedLeftAugmented(t: Tree)
    requires t.Fork? && t.right.Fork? && Augmented(t)
    ensures Augmented(RotatedLeft(t)) && MaxHigh(RotatedLeft(t)) == MaxHigh(t)
  {
    assert Augmented(t.left) && Augmented(t.right);
    assert Augmented(t.right.left) && Augmented(t.right.right);
    assert Augmented(RotatedLeft(t).left);
  }

  lemma RotatedRightAugmented(t: Tree)
    requires t.Fork? && t.left.Fork? && Augmented(t)
    ensures Augmented(RotatedRight(t)) && MaxHigh(RotatedRight(t)) == MaxHigh(t)
  {
    assert Augmented(t.left) && Augmented(t.right);
    assert Augmented(t.left.left) && Augmented(t.left.right);
    assert Augmented(RotatedRight(t).right);
  }
}
