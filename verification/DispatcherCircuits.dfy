/** What is connected to a dispatcher is a tree, in the sense of the floods, exactly if there is no circuit in it. */
module DispatcherCircuits {
  import opened DispatcherNetwork
  import opened Sequences

  /** From a dispatcher through one of its gates. */
  datatype Step = Step(node: nat, gate: nat)

  ghost predicate Possible(w: Wiring, c: Step) {
    c.node < |w| && c.gate < |w[c.node]| && w[c.node][c.gate].Port?
  }

  /** The other end of the connection. */
  function End(w: Wiring, c: Step): Step
    requires Possible(w, c)
  {
    Step(w[c.node][c.gate].node, w[c.node][c.gate].gate)
  }

  /** The next step starts where the one before ends, but does not go back by the same connection. */
  ghost predicate Follows(w: Wiring, c: Step, d: Step) {
    Possible(w, c) && d.node == End(w, c).node && d.gate != End(w, c).gate
  }

  function After(n: nat, i: nat): nat { if i + 1 < n then i + 1 else 0 }

  /** A way around, which never goes back by the connection that it has come by. */
  ghost predicate Circuit(w: Wiring, c: seq<Step>) {
    c != [] && forall i :: 0 <= i < |c| ==> Follows(w, c[i], c[After(|c|, i)])
  }

  ghost predicate Adjacent(w: Wiring, x: nat, y: nat) {
    exists i: nat :: Possible(w, Step(x, i)) && End(w, Step(x, i)).node == y
  }

  ghost predicate Walk(w: Wiring, p: seq<nat>) {
    forall i :: 0 <= i < |p| - 1 ==> Adjacent(w, p[i], p[i + 1])
  }

  /** Connected, perhaps by way of others. */
  ghost predicate Linked(w: Wiring, x: nat, y: nat) {
    exists p: seq<nat> :: p != [] && p[0] == x && p[|p| - 1] == y && Walk(w, p)
  }

  ghost predicate NoCircuit(w: Wiring, root: nat) {
    forall c: seq<Step> :: Circuit(w, c) ==> !Linked(w, root, c[0].node)
  }

  // ---------- no circuits in trees ----------

  lemma {:induction false} WalkInTable(w: Wiring, t: Table, p: seq<nat>)
    requires Spans(w, t) && p != [] && Walk(w, p) && p[0] in t
    ensures p[|p| - 1] in t
  {
    if |p| > 1 {
      var q := p[..|p| - 1];
      assert forall i :: 0 <= i < |q| - 1 ==> Adjacent(w, p[i], p[i + 1]);
      WalkInTable(w, t, q);
      var x := q[|q| - 1];
      assert Adjacent(w, p[|p| - 2], p[|p| - 1]);
      var i: nat :| Possible(w, Step(x, i)) && End(w, Step(x, i)).node == p[|p| - 1];
      assert Used(w, t, x, i);
    }
  }

  lemma {:induction false} CircuitInTable(w: Wiring, t: Table, c: seq<Step>, k: nat)
    requires Spans(w, t) && Circuit(w, c) && c[0].node in t && k < |c|
    ensures c[k].node in t
  {
    if k > 0 {
      CircuitInTable(w, t, c, k - 1);
      assert Follows(w, c[k - 1], c[After(|c|, k - 1)]);
      assert Used(w, t, c[k - 1].node, c[k - 1].gate);
    }
  }

  /** A connection is the next hop of the end that has got its entry later. */
  lemma LaterEnd(w: Wiring, root: nat, g: nat, t: Table, order: seq<nat>, c: Step)
    requires Wired(w) && IsTree(w, root, g, t, order) && Possible(w, c) && c.node in t
    requires root < |w| && g < |w[root]| && w[root][g] == Outside
    ensures var e := End(w, c);
      e.node in t && if Position(order, e.node) < Position(order, c.node) then t[c.node] == c.gate
      else Position(order, c.node) < Position(order, e.node) && t[e.node] == e.gate
  {
    var e := End(w, c);
    assert Used(w, t, c.node, c.gate) && Connected(w, c.node, c.gate);
    var a, b := Position(order, c.node), Position(order, e.node);
    if t[e.node] == e.gate {
      HopBack(w, root, g, t, order, e.node);
    } else {
      HopBack(w, root, g, t, order, c.node);
    }
  }

  lemma HopBack(w: Wiring, root: nat, g: nat, t: Table, order: seq<nat>, x: nat)
    requires Hops(w, root, g, t, order) && x in t
    requires root < |w| && g < |w[root]| && w[root][g] == Outside
    ensures x < |w| && t[x] < |w[x]| && (x == root <==> w[x][t[x]].Outside?)
    ensures x != root ==> w[x][t[x]].node in t && Position(order, w[x][t[x]].node) < Position(order, x)
  {
    var b := Position(order, x);
    assert NextHop(w, t, order, b);
    assert order[0] == root;
    if b > 0 {
      Earlier(order, b, w[x][t[x]].node);
    }
  }

  /** The dispatcher of a circuit that got its entry last. */
  lemma {:induction false} LastOf(order: seq<nat>, c: seq<Step>, n: nat) returns (k: nat)
    requires 0 < n <= |c| && forall i :: 0 <= i < n ==> c[i].node in order
    ensures k < n && forall i :: 0 <= i < n ==> Position(order, c[i].node) <= Position(order, c[k].node)
  {
    k := 0;
    if n > 1 {
      k := LastOf(order, c, n - 1);
      if Position(order, c[k].node) < Position(order, c[n - 1].node) {
        k := n - 1;
      }
    }
  }

  lemma TreeHasNoCircuit(w: Wiring, root: nat, g: nat)
    requires Wired(w) && Tree(w, root, g) && root < |w| && g < |w[root]| && w[root][g] == Outside
    ensures NoCircuit(w, root)
  {
    var t: Table, order: seq<nat> :| IsTree(w, root, g, t, order);
    forall c: seq<Step> | Circuit(w, c) ensures !Linked(w, root, c[0].node) {
      if Linked(w, root, c[0].node) {
        var p: seq<nat> :| p != [] && p[0] == root && p[|p| - 1] == c[0].node && Walk(w, p);
        WalkInTable(w, t, p);
        NotAround(w, root, g, t, order, c);
      }
    }
  }

  /** Both connections of the last dispatcher would have to be its next hop. */
  lemma NotAround(w: Wiring, root: nat, g: nat, t: Table, order: seq<nat>, c: seq<Step>)
    requires Wired(w) && IsTree(w, root, g, t, order) && root < |w| && g < |w[root]| && w[root][g] == Outside
    requires Circuit(w, c)
    ensures c[0].node !in t
  {
    if c[0].node in t {
      forall i | 0 <= i < |c| ensures c[i].node in t && c[i].node in order {
        CircuitInTable(w, t, c, i);
      }
      var k := LastOf(order, c, |c|);
      var j := if k > 0 then k - 1 else |c| - 1;
      assert After(|c|, j) == k;
      assert Follows(w, c[k], c[After(|c|, k)]) && Follows(w, c[j], c[After(|c|, j)]);
      LaterEnd(w, root, g, t, order, c[k]);
      LaterEnd(w, root, g, t, order, c[j]);
      assert false;
    }
  }

  // ---------- a tree where there is no circuit ----------

  ghost predicate Closed(w: Wiring, t: Table) {
    forall x, i :: x in t && Possible(w, Step(x, i)) ==> End(w, Step(x, i)).node in t
  }

  lemma NextHopAdded(w: Wiring, root: nat, g: nat, t: Table, order: seq<nat>, c: Step)
    requires Wired(w) && Hops(w, root, g, t, order) && Possible(w, c) && c.node in t && End(w, c).node !in t
    ensures var e := End(w, c); Hops(w, root, g, t[e.node := e.gate], order + [e.node])
  {
    var e := End(w, c);
    var t', o := t[e.node := e.gate], order + [e.node];
    assert Connected(w, c.node, c.gate);
    forall b | 0 <= b < |o| ensures NextHop(w, t', o, b) {
      if b < |order| {
        assert NextHop(w, t, order, b) && o[..b] == order[..b];
      } else {
        assert o[..b] == order;
      }
    }
  }

  lemma OrderBelow(w: Wiring, root: nat, g: nat, t: Table, order: seq<nat>)
    requires Hops(w, root, g, t, order)
    ensures |order| <= |w|
  {
    forall x | x in order ensures x < |w| {
      assert NextHop(w, t, order, Position(order, x));
    }
    AtMost(order, |w|);
  }

  /** Everything connected can be given a next hop. */
  lemma {:induction false} Grown(w: Wiring, root: nat, g: nat, t: Table, order: seq<nat>)
    returns (all: Table, full: seq<nat>)
    requires Wired(w) && Hops(w, root, g, t, order) && order != []
    ensures Hops(w, root, g, all, full) && full != [] && Closed(w, all)
    decreases |w| - |order|
  {
    OrderBelow(w, root, g, t, order);
    if Closed(w, t) {
      return t, order;
    }
    var x: nat, i: nat :| x in t && Possible(w, Step(x, i)) && End(w, Step(x, i)).node !in t;
    var e := End(w, Step(x, i));
    NextHopAdded(w, root, g, t, order, Step(x, i));
    OrderBelow(w, root, g, t[e.node := e.gate], order + [e.node]);
    all, full := Grown(w, root, g, t[e.node := e.gate], order + [e.node]);
  }

  lemma {:induction false} LinkedToRoot(w: Wiring, root: nat, g: nat, t: Table, order: seq<nat>, x: nat)
    requires Wired(w) && Hops(w, root, g, t, order) && x in t
    requires root < |w| && g < |w[root]| && w[root][g] == Outside
    ensures Linked(w, root, x)
    decreases Position(order, x)
  {
    HopBack(w, root, g, t, order, x);
    if x == root {
      assert Walk(w, [root]);
    } else {
      var y, i := w[x][t[x]].node, w[x][t[x]].gate;
      LinkedToRoot(w, root, g, t, order, y);
      var p: seq<nat> :| p != [] && p[0] == root && p[|p| - 1] == y && Walk(w, p);
      assert Connected(w, x, t[x]) && Possible(w, Step(y, i)) && End(w, Step(y, i)).node == x;
      assert Walk(w, p + [x]);
    }
  }

  /** A way from `a` to `b` that never goes back by the connection it has come by. */
  ghost predicate Path(w: Wiring, c: seq<Step>, a: nat, b: nat) {
    (forall i :: 0 <= i < |c| ==> Possible(w, c[i])) &&
    (forall i :: 0 <= i < |c| - 1 ==> Follows(w, c[i], c[i + 1])) &&
    if c == [] then a == b else c[0].node == a && End(w, c[|c| - 1]).node == b
  }

  /** A step to a next hop or back, between dispatchers up to position `m`. */
  ghost predicate Hop(w: Wiring, t: Table, order: seq<nat>, c: Step, m: nat) {
    Possible(w, c) && c.node in t && End(w, c).node in t && c.node in order && End(w, c).node in order &&
    Position(order, c.node) <= m && Position(order, End(w, c).node) <= m &&
    (t[c.node] == c.gate || t[End(w, c).node] == End(w, c).gate)
  }

  lemma {:induction false} HopPath(w: Wiring, root: nat, g: nat, t: Table, order: seq<nat>, a: nat, b: nat, m: nat)
    returns (c: seq<Step>)
    requires Wired(w) && Hops(w, root, g, t, order) && a in t && b in t
    requires root < |w| && g < |w[root]| && w[root][g] == Outside
    requires Position(order, a) <= m && Position(order, b) <= m
    ensures Path(w, c, a, b) && forall i :: 0 <= i < |c| ==> Hop(w, t, order, c[i], m)
    decreases Position(order, a) + Position(order, b)
  {
    c := [];
    if a != b {
      var up := Position(order, b) < Position(order, a);
      var x := if up then a else b;
      hide Linked, Walk, IsTree, Path, Hops, Wired;
      HopBack(w, root, g, t, order, x);
      RootFirst(w, root, g, t, order, a, b);
      assert Connected(w, x, t[x]);
      var s := Step(x, t[x]);
      var y, n := End(w, s), Position(order, x);
      if up {
        c := HopPath(w, root, g, t, order, y.node, b, n - 1);
        PathBehind(w, t, order, s, c, b, n);
        c := [s] + c;
      } else {
        c := HopPath(w, root, g, t, order, a, y.node, n - 1);
        PathBefore(w, t, order, c, y, a, n);
        c := c + [y];
      }
    }
  }

  lemma RootFirst(w: Wiring, root: nat, g: nat, t: Table, order: seq<nat>, a: nat, b: nat)
    requires Hops(w, root, g, t, order) && a in t && b in t && a != b
    ensures Position(order, a) != Position(order, b)
    ensures Position(order, b) < Position(order, a) ==> a != root
    ensures Position(order, a) < Position(order, b) ==> b != root
  {
    assert order[0] == root;
    assert order[Position(order, a)] == a && order[Position(order, b)] == b;
  }

  /** A step in front of a path that stays below where the step begins. */
  lemma PathBehind(w: Wiring, t: Table, order: seq<nat>, s: Step, c: seq<Step>, b: nat, n: nat)
    requires Wired(w) && Possible(w, s) && s.node in order && Position(order, s.node) == n > 0
    requires Path(w, c, End(w, s).node, b) && forall i :: 0 <= i < |c| ==> Hop(w, t, order, c[i], n - 1)
    ensures Path(w, [s] + c, s.node, b)
  {
    var p := [s] + c;
    assert Connected(w, s.node, s.gate);
    if c != [] {
      assert Hop(w, t, order, c[0], n - 1);
    }
    forall i | 0 <= i < |p| - 1 ensures Follows(w, p[i], p[i + 1]) {
      if i > 0 {
        assert p[i] == c[i - 1] && p[i + 1] == c[i] && Follows(w, c[i - 1], c[i - 1 + 1]);
      }
    }
  }

  /** A step behind a path that stays below where the step ends. */
  lemma PathBefore(w: Wiring, t: Table, order: seq<nat>, c: seq<Step>, s: Step, a: nat, n: nat)
    requires Wired(w) && Possible(w, s) && End(w, s).node in order && Position(order, End(w, s).node) == n > 0
    requires Path(w, c, a, s.node) && forall i :: 0 <= i < |c| ==> Hop(w, t, order, c[i], n - 1)
    ensures Path(w, c + [s], a, End(w, s).node)
  {
    var p, k := c + [s], |c| - 1;
    assert Connected(w, s.node, s.gate);
    if c != [] {
      assert Hop(w, t, order, c[k], n - 1) && Connected(w, c[k].node, c[k].gate);
    }
    forall i | 0 <= i < |p| - 1 ensures Follows(w, p[i], p[i + 1]) {
      if i < k {
        assert p[i] == c[i] && p[i + 1] == c[i + 1] && Follows(w, c[i], c[i + 1]);
      }
    }
  }

  /** A connection that is nobody's next hop closes a circuit. */
  lemma UnusedCloses(w: Wiring, root: nat, g: nat, t: Table, order: seq<nat>, s: Step)
    requires Wired(w) && Hops(w, root, g, t, order) && root < |w| && g < |w[root]| && w[root][g] == Outside
    requires Possible(w, s) && s.node in t && End(w, s).node in t && !Used(w, t, s.node, s.gate)
    ensures exists c: seq<Step> :: Circuit(w, c) && c[0].node == s.node
  {
    var e := End(w, s);
    assert Connected(w, s.node, s.gate) && e.node in order && s.node in order;
    var c := HopPath(w, root, g, t, order, e.node, s.node, |order|);
    var p := [s] + c;
    forall i | 0 <= i < |p| ensures Follows(w, p[i], p[After(|p|, i)]) {
      if i > 0 {
        assert p[i] == c[i - 1] && Hop(w, t, order, c[i - 1], |order|) && Connected(w, c[i - 1].node, c[i - 1].gate);
        assert i < |c| ==> p[i + 1] == c[i] && Follows(w, c[i - 1], c[i - 1 + 1]);
      } else if c != [] {
        assert p[1] == c[0] && Hop(w, t, order, c[0], |order|);
      }
    }
    assert Circuit(w, p);
  }

  lemma NoCircuitMeansTree(w: Wiring, root: nat, g: nat)
    requires Wired(w) && NoCircuit(w, root) && root < |w| && g < |w[root]| && w[root][g] == Outside
    ensures Tree(w, root, g)
  {
    assert NextHop(w, map[root := g], [root], 0);
    var t, order := Grown(w, root, g, map[root := g], [root]);
    forall x, i | x in t && x < |w| && 0 <= i < |w[x]| ensures Used(w, t, x, i) {
      if w[x][i].Port? && !Used(w, t, x, i) {
        assert Possible(w, Step(x, i));
        UnusedCloses(w, root, g, t, order, Step(x, i));
        LinkedToRoot(w, root, g, t, order, x);
        assert false;
      }
    }
    assert IsTree(w, root, g, t, order);
  }

  /** A flood finds a tree if and only if no circuit is connected to where it starts. */
  lemma TreeIffNoCircuit(w: Wiring, root: nat, g: nat)
    requires Wired(w) && root < |w| && g < |w[root]| && w[root][g] == Outside
    ensures Tree(w, root, g) <==> NoCircuit(w, root)
  {
    hide *;
    if Tree(w, root, g) {
      TreeHasNoCircuit(w, root, g);
    }
    if NoCircuit(w, root) {
      NoCircuitMeansTree(w, root, g);
    }
  }

  /** For instance, three dispatchers in a circle are not a tree. */
  lemma Triangle()
    ensures Wired(Three()) && |Three()| == 3 && Three()[0][0] == Outside && !Tree(Three(), 0, 0)
  {
    ThreeAround();
    assert Walk(Three(), [0]);
    hide Wired, Circuit, Tree;
    TreeIffNoCircuit(Three(), 0, 0);
  }

  lemma ThreeAround()
    ensures Wired(Three()) && Circuit(Three(), [Step(0, 1), Step(1, 1), Step(2, 1)])
  {
    var w, c := Three(), [Step(0, 1), Step(1, 1), Step(2, 1)];
    assert Connected(w, 0, 1) && Connected(w, 0, 2) && Connected(w, 1, 0) && Connected(w, 1, 1);
    assert Connected(w, 2, 0) && Connected(w, 2, 1);
    assert Follows(w, c[0], c[1]) && Follows(w, c[1], c[2]) && Follows(w, c[2], c[0]);
  }

  function Three(): Wiring {
    [[Outside, Port(1, 0), Port(2, 1)], [Port(0, 1), Port(2, 0)], [Port(1, 1), Port(0, 2)]]
  }
}
