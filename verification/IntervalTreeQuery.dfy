// The overlap query, on shapes: what the pruned search reports, and when that is every overlap.

module IntervalTreeQuery {
  import opened IntervalTreeShape
  import opened Sequences

  predicate Overlap(a1: int, a2: int, b1: int, b2: int) {
    if a1 <= b1 then b1 <= a2 else a1 <= b2
  }

  predicate Within(t: int, low: int, high: int) { low <= t <= high }

  /** Overlap means that the two closed intervals share a point. */
  lemma OverlapMeansIntersection(a1: int, a2: int, b1: int, b2: int)
    requires a1 <= a2 && b1 <= b2
    ensures Overlap(a1, a2, b1, b2) <==> exists t :: Within(t, a1, a2) && Within(t, b1, b2)
  {
    if Overlap(a1, a2, b1, b2) {
      var t := if a1 <= b1 then b1 else a1;
      assert Within(t, a1, a2) && Within(t, b1, b2);
    }
  }

  ghost predicate Hit(n: Node, low: int, high: int) {
    Overlap(low, high, n.key, n.high)
  }

  /** The naive answer: every node of the sequence in turn. */
  ghost function Scan(s: seq<Node>, low: int, high: int): seq<Interval?> {
    if s == [] then []
    else (if Hit(s[0], low, high) then [s[0].storedInterval] else []) + Scan(s[1..], low, high)
  }

  /** The pruned search: after an entered left subtree, the right one is visited only if the left had a hit. */
  ghost function Search(t: Tree, low: int, high: int): seq<Interval?> {
    match t
    case Leaf => []
    case Fork(l, n, _, _, r) =>
      (if Hit(n, low, high) then [n.storedInterval] else []) +
      if MaxHigh(l) < low then Search(r, low, high)
      else if Search(l, low, high) == [] then []
      else Search(l, low, high) + Search(r, low, high)
  }

  // ---------- exactness ----------

  ghost predicate Proper(t: Tree) {
    forall n :: n in Nodes(t) ==> n.key <= n.high
  }

  lemma {:induction false} ScanConcat(a: seq<Node>, b: seq<Node>, low: int, high: int)
    ensures Scan(a + b, low, high) == Scan(a, low, high) + Scan(b, low, high)
  {
    hide Hit;
    if a == [] {
      assert a + b == b;
    } else {
      assert (a + b)[0] == a[0] && (a + b)[1..] == a[1..] + b;
      ScanConcat(a[1..], b, low, high);
      var own := if Hit(a[0], low, high) then [a[0].storedInterval] else [];
      Grouped(own, Scan(a[1..], low, high), Scan(b, low, high));
    }
  }

  lemma {:induction false} PreorderElements(t: Tree)
    ensures Elements(Preorder(t)) == Nodes(t)
  {
    match t
    case Leaf =>
    case Fork(l, n, _, _, r) =>
      PreorderElements(l);
      PreorderElements(r);
      ElementsConcat([n], Preorder(l));
      ElementsConcat([n] + Preorder(l), Preorder(r));
      assert Elements([n]) == {n};
  }

  lemma {:induction false} ScanEmpty(s: seq<Node>, low: int, high: int)
    ensures Scan(s, low, high) == [] <==> forall n :: n in Elements(s) ==> !Hit(n, low, high)
  {
    if s != [] {
      ScanEmpty(s[1..], low, high);
    }
  }

  /** A left subtree entered in vain shows that nothing to its right can overlap. */
  lemma NothingToTheRight(t: Tree, low: int, high: int)
    requires t.Fork? && Augmented(t) && SortedByKey(Inorder(t)) && low > -MAX_TIME
    requires MaxHigh(t.left) >= low && Scan(Preorder(t.left), low, high) == []
    ensures Scan(Preorder(t.right), low, high) == []
  {
    AugmentedMeansMaximum(t.left);
    var n :| n in Nodes(t.left) && n.high == MaxHigh(t.left);
    PreorderElements(t.left);
    ScanEmpty(Preorder(t.left), low, high);
    assert !Hit(n, low, high);
    forall m | m in Nodes(t.right) ensures !Hit(m, low, high) {
      Across(t, n, m);
    }
    PreorderElements(t.right);
    ScanEmpty(Preorder(t.right), low, high);
  }

  lemma Across(t: Tree, n: Node, m: Node)
    requires t.Fork? && SortedByKey(Inorder(t)) && n in Nodes(t.left) && m in Nodes(t.right)
    ensures n.key <= m.key
  {
    SortedChildren(t);
    InorderElements(t.left);
    InorderElements(t.right);
  }

  lemma NothingBelow(t: Tree, low: int, high: int)
    requires Augmented(t) && Proper(t) && MaxHigh(t) < low
    ensures Scan(Preorder(t), low, high) == []
  {
    AugmentedMeansMaximum(t);
    PreorderElements(t);
    ScanEmpty(Preorder(t), low, high);
  }

  lemma ScanPreorder(t: Tree, low: int, high: int)
    requires t.Fork?
    ensures Scan(Preorder(t), low, high) ==
      (if Hit(t.node, low, high) then [t.node.storedInterval] else []) +
      (Scan(Preorder(t.left), low, high) + Scan(Preorder(t.right), low, high))
  {
    var n, l, r := [t.node], Preorder(t.left), Preorder(t.right);
    ScanConcat(n, l, low, high);
    ScanConcat(n + l, r, low, high);
    assert Scan(n[1..], low, high) == [];
    Empty(if Hit(t.node, low, high) then [t.node.storedInterval] else []);
    Grouped(Scan(n, low, high), Scan(l, low, high), Scan(r, low, high));
  }

  /** The pruned search reports exactly the overlapping intervals, each once, in preorder. */
  lemma {:induction false} SearchIsExact(t: Tree, low: int, high: int)
    requires Augmented(t) && SortedByKey(Inorder(t)) && Proper(t) && low > -MAX_TIME
    ensures Search(t, low, high) == Scan(Preorder(t), low, high)
  {
    if t.Fork? {
      PartsExact(t);
      hide Hit, Scan, SortedByKey, Proper, Augmented, MaxHigh, Preorder, Inorder, Nodes;
      SearchIsExact(t.left, low, high);
      SearchIsExact(t.right, low, high);
      ScanPreorder(t, low, high);
      if MaxHigh(t.left) < low {
        NothingBelow(t.left, low, high);
      } else if Search(t.left, low, high) == [] {
        NothingToTheRight(t, low, high);
      }
    }
  }

  lemma PartsExact(t: Tree)
    requires t.Fork? && Augmented(t) && SortedByKey(Inorder(t)) && Proper(t)
    ensures Augmented(t.left) && SortedByKey(Inorder(t.left)) && Proper(t.left)
    ensures Augmented(t.right) && SortedByKey(Inorder(t.right)) && Proper(t.right)
  {
    SortedChildren(t);
  }

  /** From the least time on, the right neighbour of a node without left child is missed. */
  lemma SearchMisses(t: Tree, low: int, high: int)
    requires t.Fork? && t.left.Leaf? && low <= -MAX_TIME
    ensures Search(t, low, high) == Scan([t.node], low, high)
    ensures Search(t, low, high) == Scan(Preorder(t), low, high) <==> Scan(Preorder(t.right), low, high) == []
  {
    ScanPreorder(t, low, high);
    assert Scan([t.node][1..], low, high) == [];
  }

  /** The query is exact on every tree if and only if it asks from above the least time. */
  lemma ExactIffAboveLeastTime(low: SimTime, high: SimTime, a: Node, b: Node)
    requires a != b && a.key == b.key == a.high == b.high == -MAX_TIME
    ensures low > -MAX_TIME <==>
      forall t: Tree :: RedBlack(t) && Augmented(t) && SortedByKey(Inorder(t)) && Proper(t) ==>
        Search(t, low, high) == Scan(Preorder(t), low, high)
  {
    if low > -MAX_TIME {
      forall t: Tree | RedBlack(t) && Augmented(t) && SortedByKey(Inorder(t)) && Proper(t)
        ensures Search(t, low, high) == Scan(Preorder(t), low, high)
      {
        SearchIsExact(t, low, high);
      }
    } else {
      var r := Fork(Leaf, b, true, -MAX_TIME, Leaf);
      var t := Fork(Leaf, a, false, -MAX_TIME, r);
      assert Inorder(r) == [b];
      assert Inorder(t) == [a, b];
      assert Preorder(r) == [b];
      assert Augmented(r) && Balanced(r) && NoRedRed(r);
      assert RedBlack(t) && Augmented(t) && Proper(t);
      assert Scan(Preorder(r)[1..], low, high) == [] && Hit(b, low, high);
      SearchMisses(t, low, high);
    }
  }

  // ---------- from the least time on ----------

  /** Then an interval overlaps if it begins in time. */
  ghost predicate AllLater(t: Tree, high: int) {
    forall n :: n in Nodes(t) ==> n.key > high
  }

  lemma FindsNothing(t: Tree, low: int, high: int)
    requires low <= -MAX_TIME
    ensures Scan(Preorder(t), low, high) == [] <==> AllLater(t, high)
  {
    PreorderElements(t);
    ScanEmpty(Preorder(t), low, high);
  }

  lemma Order(t: Tree, n: Node)
    requires t.Fork? && SortedByKey(Inorder(t))
    ensures n in Nodes(t.left) ==> n.key <= t.node.key
    ensures n in Nodes(t.right) ==> t.node.key <= n.key
  {
    SortedChildren(t);
    InorderElements(t.left);
    InorderElements(t.right);
  }

  lemma LaterToTheRight(t: Tree, high: int)
    requires t.Fork? && SortedByKey(Inorder(t)) && t.node.key > high
    ensures AllLater(t.right, high)
  {
    forall n | n in Nodes(t.right) ensures n.key > high {
      Order(t, n);
    }
  }

  /** The search goes down to the left first, so it misses what is there only if there is nothing else. */
  lemma {:induction false} SearchStarts(t: Tree, low: int, high: int)
    requires Augmented(t) && SortedByKey(Inorder(t)) && low <= -MAX_TIME
    ensures Search(t, low, high) == [] <==> AllLater(t, high)
  {
    if t.Fork? {
      SortedChildren(t);
      AugmentedMeansMaximum(t.left);
      SearchStarts(t.left, low, high);
      if t.node.key > high {
        LaterToTheRight(t, high);
      }
    }
  }

  /** No node without a left child has a right one that begins in time. */
  ghost predicate NoneSkipped(t: Tree, high: int) {
    t.Fork? ==>
      NoneSkipped(t.left, high) && NoneSkipped(t.right, high) &&
      (t.left.Leaf? && t.right.Fork? ==> t.right.node.key > high)
  }

  lemma {:induction false} LaterNotSkipped(t: Tree, high: int)
    requires AllLater(t, high)
    ensures NoneSkipped(t, high)
  {
    if t.Fork? {
      LaterNotSkipped(t.left, high);
      LaterNotSkipped(t.right, high);
    }
  }

  /** A red-black tree without left subtree has at most one node on the right. */
  lemma AloneOnTheRight(t: Tree, high: int)
    requires t.Fork? && t.left.Leaf? && Balanced(t) && NoRedRed(t)
    ensures AllLater(t.right, high) <==> NoneSkipped(t, high)
  {
    if t.right.Fork? {
      assert t.right.left.Leaf? && t.right.right.Leaf?;
      assert Nodes(t.right) == {t.right.node};
      assert NoneSkipped(t.right.left, high) && NoneSkipped(t.right.right, high) && NoneSkipped(t.left, high);
    }
  }

  lemma EqualInParts<T>(a: seq<T>, b: seq<T>, c: seq<T>, d: seq<T>, e: seq<T>)
    requires |b| <= |d| && |c| <= |e|
    ensures a + (b + c) == a + (d + e) <==> b == d && c == e
  {
    if a + (b + c) == a + (d + e) {
      assert |b| == |d|;
      assert b + c == (a + (b + c))[|a|..] == (a + (d + e))[|a|..] == d + e;
      assert b == (b + c)[..|b|] && d == (d + e)[..|d|];
      assert c == (b + c)[|b|..] && e == (d + e)[|d|..];
    }
  }

  /** A query from the least time on is right for a given tree if and only if it skips nothing there. */
  lemma {:induction false} ExactIffNoneSkipped(t: Tree, low: int, high: int)
    requires Balanced(t) && NoRedRed(t) && Augmented(t) && SortedByKey(Inorder(t)) && low <= -MAX_TIME
    ensures Search(t, low, high) == Scan(Preorder(t), low, high) <==> NoneSkipped(t, high)
    ensures |Search(t, low, high)| <= |Scan(Preorder(t), low, high)|
  {
    if t.Fork? {
      hide Hit, Augmented, Balanced, NoRedRed, SortedByKey, Scan, MaxHigh, Preorder, AllLater;
      PartsSearched(t, low, high);
      ScanPreorder(t, low, high);
      if t.left.Leaf? {
        SearchMisses(t, low, high);
        FindsNothing(t.right, low, high);
        AloneOnTheRight(t, high);
      } else if Search(t.left, low, high) == [] {
        NothingAtAll(t, low, high);
      } else {
        ExactIffNoneSkipped(t.left, low, high);
        ExactIffNoneSkipped(t.right, low, high);
        EqualInParts(Own(t, low, high), Search(t.left, low, high), Search(t.right, low, high),
                     Scan(Preorder(t.left), low, high), Scan(Preorder(t.right), low, high));
      }
    }
  }

  lemma PartsSearched(t: Tree, low: int, high: int)
    requires t.Fork? && Balanced(t) && NoRedRed(t) && Augmented(t) && SortedByKey(Inorder(t)) && low <= -MAX_TIME
    ensures Balanced(t.left) && NoRedRed(t.left) && Augmented(t.left) && SortedByKey(Inorder(t.left))
    ensures Balanced(t.right) && NoRedRed(t.right) && Augmented(t.right) && SortedByKey(Inorder(t.right))
    ensures Search(t, low, high) == Own(t, low, high) +
      if Search(t.left, low, high) == [] then [] else Search(t.left, low, high) + Search(t.right, low, high)
  {
    SortedChildren(t);
    AugmentedMeansMaximum(t.left);
  }

  lemma NothingAtAll(t: Tree, low: int, high: int)
    requires t.Fork? && t.left.Fork? && Augmented(t) && SortedByKey(Inorder(t)) && low <= -MAX_TIME
    requires Search(t.left, low, high) == []
    ensures Search(t, low, high) == Scan(Preorder(t), low, high) == [] && NoneSkipped(t, high)
  {
    SortedChildren(t);
    SearchStarts(t.left, low, high);
    Order(t, t.left.node);
    LaterToTheRight(t, high);
    assert AllLater(t, high);
    SearchStarts(t, low, high);
    FindsNothing(t, low, high);
    LaterNotSkipped(t, high);
  }

  // ---------- the explicit stack ----------

  /** A left subtree under way: its tree, and whether something was found in it. */
  datatype Pending = Pending(tree: Tree, found: bool)

  /** What is still to be reported when the current subtree is done; `hit`: it held an overlap. */
  ghost function Rest(p: seq<Pending>, hit: bool, low: int, high: int): seq<Interval?>
    decreases |p|
  {
    if |p| <= 1 then []
    else
      var f, q := p[|p| - 1], p[..|p| - 1];
      if f.tree.Fork? && (f.found || hit) then Search(f.tree.right, low, high) + Rest(q, true, low, high)
      else Rest(q, false, low, high)
  }

  ghost function Marked(p: seq<Pending>): seq<Pending>
    requires p != []
  {
    p[|p| - 1 := p[|p| - 1].(found := true)]
  }

  /** An overlap found now counts for the left subtree that encloses the current one. */
  lemma MarkedRest(p: seq<Pending>, hit: bool, low: int, high: int)
    requires p != []
    ensures Rest(Marked(p), hit, low, high) == Rest(p, true, low, high)
  {
    assert Marked(p)[..|p| - 1] == p[..|p| - 1];
  }

  /** Everything reported in the end, seen from the middle of the query. */
  ghost function Total(result: seq<Interval?>, t: Tree, p: seq<Pending>, low: int, high: int): seq<Interval?> {
    result + (Search(t, low, high) + Rest(p, Search(t, low, high) != [], low, high))
  }

  ghost function Own(t: Tree, low: int, high: int): seq<Interval?>
    requires t.Fork?
  {
    if Hit(t.node, low, high) then [t.node.storedInterval] else []
  }

  ghost function MarkedIf(p: seq<Pending>, hit: bool): seq<Pending>
    requires p != []
  {
    if hit then Marked(p) else p
  }

  ghost predicate AllForks(p: seq<Pending>) {
    forall i :: 1 <= i < |p| ==> p[i].tree.Fork?
  }

  lemma Assoc4<T>(a: seq<T>, b: seq<T>, c: seq<T>, d: seq<T>)
    ensures a + ((b + c) + d) == (a + b) + (c + d)
    ensures a + ((b + (c + d))) == (a + b) + (c + d)
  {
  }

  lemma VisitRight(result: seq<Interval?>, t: Tree, p: seq<Pending>, low: int, high: int)
    requires t.Fork? && MaxHigh(t.left) < low && p != [] && AllForks(p)
    ensures var q := MarkedIf(p, Hit(t.node, low, high));
      Total(result + Own(t, low, high), t.right, q, low, high) == Total(result, t, p, low, high)
  {
    var r := Search(t.right, low, high);
    MarkedRest(p, r != [], low, high);
    Assoc4(result, Own(t, low, high), r, Rest(p, Search(t, low, high) != [], low, high));
  }

  lemma VisitLeft(result: seq<Interval?>, t: Tree, p: seq<Pending>, low: int, high: int)
    requires t.Fork? && MaxHigh(t.left) >= low && p != [] && AllForks(p)
    ensures var q := MarkedIf(p, Hit(t.node, low, high)) + [Pending(t, false)];
      Total(result + Own(t, low, high), t.left, q, low, high) == Total(result, t, p, low, high)
  {
    var l, r := Search(t.left, low, high), Search(t.right, low, high);
    var m := MarkedIf(p, Hit(t.node, low, high));
    var q := m + [Pending(t, false)];
    assert q[..|q| - 1] == m && q[|q| - 1] == Pending(t, false);
    MarkedRest(p, true, low, high);
    MarkedRest(p, false, low, high);
    if l == [] {
      Assoc4(result, Own(t, low, high), l, Rest(m, false, low, high));
    } else {
      VisitBoth(result, Own(t, low, high), l, r, Rest(m, true, low, high));
    }
  }

  lemma VisitBoth<T>(a: seq<T>, b: seq<T>, c: seq<T>, d: seq<T>, e: seq<T>)
    ensures (a + b) + (c + (d + e)) == a + ((b + (c + d)) + e)
  {
  }

  lemma PopFrame(result: seq<Interval?>, p: seq<Pending>, low: int, high: int)
    requires |p| > 1 && AllForks(p)
    ensures var f, q := p[|p| - 1], p[..|p| - 1];
      Total(result, Leaf, p, low, high) ==
        if f.found then Total(result, f.tree.right, Marked(q), low, high) else Total(result, Leaf, q, low, high)
  {
    var f, q := p[|p| - 1], p[..|p| - 1];
    MarkedRest(q, true, low, high);
    MarkedRest(q, false, low, high);
    Empty(Rest(p, false, low, high));
    Empty(Rest(q, false, low, high));
  }

  lemma TotalAtEnds(t: Tree, p: Pending, result: seq<Interval?>, low: int, high: int)
    ensures Total([], t, [p], low, high) == Search(t, low, high)
    ensures Total(result, Leaf, [p], low, high) == result
  {
  }

  /** How many nodes are still to be considered at most. */
  ghost function Weight(p: seq<Pending>): nat
    decreases |p|
  {
    if |p| <= 1 then 0
    else Weight(p[..|p| - 1]) + if p[|p| - 1].tree.Fork? then Size(p[|p| - 1].tree.right) else 0
  }

  lemma MarkedWeight(p: seq<Pending>)
    requires p != []
    ensures Weight(Marked(p)) == Weight(p)
  {
    assert Marked(p)[..|p| - 1] == p[..|p| - 1];
  }

  lemma PushedWeight(p: seq<Pending>, f: Pending)
    requires p != [] && f.tree.Fork?
    ensures Weight(p + [f]) == Weight(p) + Size(f.tree.right)
  {
    assert (p + [f])[..|p|] == p;
  }

  // ---------- looking an interval up by identity ----------

  /** The first node of the sequence that stores exactly this interval, if there is one. */
  ghost function FirstStoring(s: seq<Node>, interval: Interval): (r: Option<Node>)
    ensures r.None? <==> forall n :: n in Elements(s) ==> n.storedInterval != interval
    ensures r.Some? ==> r.value in Elements(s) && r.value.storedInterval == interval
  {
    if s == [] then None
    else if s[0].storedInterval == interval then Some(s[0])
    else FirstStoring(s[1..], interval)
  }

  lemma {:induction false} FirstStoringConcat(a: seq<Node>, b: seq<Node>, interval: Interval)
    ensures FirstStoring(a + b, interval) ==
      if FirstStoring(a, interval).Some? then FirstStoring(a, interval) else FirstStoring(b, interval)
  {
    if a == [] {
      assert a + b == b;
    } else {
      assert (a + b)[0] == a[0] && (a + b)[1..] == a[1..] + b;
      FirstStoringConcat(a[1..], b, interval);
    }
  }

  lemma FirstStoringPreorder(t: Tree, interval: Interval)
    requires t.Fork?
    ensures FirstStoring(Preorder(t), interval) ==
      if t.node.storedInterval == interval then Some(t.node)
      else if FirstStoring(Preorder(t.left), interval).Some? then FirstStoring(Preorder(t.left), interval)
      else FirstStoring(Preorder(t.right), interval)
  {
    FirstStoringConcat([t.node], Preorder(t.left), interval);
    FirstStoringConcat([t.node] + Preorder(t.left), Preorder(t.right), interval);
    assert FirstStoring([t.node][1..], interval) == None;
  }
}
