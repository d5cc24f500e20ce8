/** Networks of message dispatchers, and what a flood of registrations leaves behind in their tables. */
module DispatcherNetwork {
  import opened Sequences

  /** A gate leads to another dispatcher or to some other module. */
  datatype Port = Outside | Port(node: nat, gate: nat)

  /** The gates of all dispatchers. */
  type Wiring = seq<seq<Port>>

  /** Connections have two ends, which are different gates. */
  ghost predicate Wired(w: Wiring) {
    forall d, i :: 0 <= d < |w| && 0 <= i < |w[d]| ==> Connected(w, d, i)
  }

  ghost predicate Connected(w: Wiring, d: nat, i: nat)
    requires d < |w| && i < |w[d]|
  {
    w[d][i].Port? ==>
      var e, j := w[d][i].node, w[d][i].gate;
      e < |w| && (e != d || j != i) && j < |w[e]| && w[e][j] == Port(d, i)
  }

  /** Next hops: gate numbers towards the registrant, which is behind gate `g` of the dispatcher `root`. */
  type Table = map<nat, nat>

  /** Dispatchers in the order in which they got their entries: every next hop leads to an earlier one. */
  ghost predicate Hops(w: Wiring, root: nat, g: nat, t: Table, order: seq<nat>) {
    (forall x :: x in t <==> x in order) &&
    (order != [] ==> order[0] == root && root in t && t[root] == g) &&
    (forall a, b :: 0 <= a < b < |order| ==> order[a] != order[b]) &&
    (forall b :: 0 <= b < |order| ==> NextHop(w, t, order, b))
  }

  ghost predicate NextHop(w: Wiring, t: Table, order: seq<nat>, b: nat)
    requires b < |order|
  {
    var x := order[b];
    x < |w| && x in t && t[x] < |w[x]| && (b > 0 ==> w[x][t[x]].Port? && w[x][t[x]].node in order[..b])
  }

  /** Every connection of a dispatcher with an entry is the next hop of one of its ends. */
  ghost predicate Spans(w: Wiring, t: Table) {
    forall x, i :: x in t && x < |w| && 0 <= i < |w[x]| ==> Used(w, t, x, i)
  }

  ghost predicate Used(w: Wiring, t: Table, x: nat, i: nat)
    requires x < |w| && i < |w[x]| && x in t
  {
    w[x][i].Port? ==> var e, j := w[x][i].node, w[x][i].gate; e in t && (t[e] == j || t[x] == i)
  }

  /**
   * The dispatchers connected to `root` form a tree: each of them but the root can be given one connection, to an
   * earlier dispatcher, such that there is no other connection.
   */
  ghost predicate Tree(w: Wiring, root: nat, g: nat) {
    exists t: Table, order: seq<nat> :: IsTree(w, root, g, t, order)
  }

  ghost predicate IsTree(w: Wiring, root: nat, g: nat, t: Table, order: seq<nat>) {
    order != [] && Hops(w, root, g, t, order) && Spans(w, t)
  }

  // ---------- following next hops ----------

  /** The dispatchers on the way from `x` to the registrant. */
  ghost function Way(w: Wiring, root: nat, g: nat, t: Table, order: seq<nat>, x: nat): (p: seq<nat>)
    requires Hops(w, root, g, t, order) && x in t
    ensures |p| > 0 && p[0] == x
    decreases Position(order, x)
  {
    var b := Position(order, x);
    assert NextHop(w, t, order, b);
    if b == 0 then [x]
    else
      var y := w[x][t[x]].node;
      Earlier(order, b, y);
      [x] + Way(w, root, g, t, order, y)
  }

  lemma Earlier(order: seq<nat>, b: nat, y: nat)
    requires b <= |order| && y in order[..b]
    requires forall i, j :: 0 <= i < j < |order| ==> order[i] != order[j]
    ensures y in order && Position(order, y) < b
  {
    var i :| 0 <= i < b && order[..b][i] == y;
    assert order[i] == y;
    assert order[Position(order, y)] == y;
  }

  /** Lookup after lookup leads to the registrant, in fewer steps than there are dispatchers with entries. */
  lemma {:induction false} WayLeadsHome(w: Wiring, root: nat, g: nat, t: Table, order: seq<nat>, x: nat)
    requires Hops(w, root, g, t, order) && x in t
    ensures var p := Way(w, root, g, t, order, x);
      |p| <= |order| && p[|p| - 1] == root &&
      (forall k :: 0 <= k < |p| ==> p[k] < |w| && p[k] in t && t[p[k]] < |w[p[k]]|) &&
      (forall k :: 0 <= k < |p| - 1 ==> w[p[k]][t[p[k]]].Port? && w[p[k]][t[p[k]]].node == p[k + 1])
    ensures |Way(w, root, g, t, order, x)| <= Position(order, x) + 1
    decreases Position(order, x)
  {
    var b := Position(order, x);
    assert NextHop(w, t, order, b);
    if b > 0 {
      var y := w[x][t[x]].node;
      Earlier(order, b, y);
      WayLeadsHome(w, root, g, t, order, y);
    }
  }

  // ---------- a flood on its way ----------

  /** The dispatchers that are forwarding, outermost first, and how many of their gates they are done with. */
  datatype Stack = Stack(path: seq<nat>, sent: map<nat, nat>)

  ghost function Sent(w: Wiring, t: Table, s: Stack, x: nat): nat {
    if x in s.path then if x in s.sent then s.sent[x] else 0
    else if x in t && x < |w| then |w[x]| else 0
  }

  /** A gate that has been forwarded to: settled now, or to be settled when the other end comes to it. */
  ghost predicate Settled(w: Wiring, t: Table, s: Stack, x: nat, i: nat)
    requires x < |w| && i < |w[x]| && x in t
  {
    w[x][i].Port? ==>
      var e, j := w[x][i].node, w[x][i].gate;
      e in t && (t[e] == j || t[x] == i || (e in s.path && j >= Sent(w, t, s, e)))
  }

  ghost predicate AllSettled(w: Wiring, t: Table, s: Stack) {
    forall x, i :: x in t && x < |w| && 0 <= i < |w[x]| && i < Sent(w, t, s, x) ==> Settled(w, t, s, x, i)
  }

  /**
   * Forwarding dispatchers have entries, from the one that forwards to them; who is done with a gate to one
   * did so before it started.
   */
  ghost predicate Stacked(w: Wiring, root: nat, t: Table, s: Stack) {
    (forall x :: x in s.path ==> x in t && x < |w|) &&
    (s.path != [] ==> s.path[0] == root) &&
    (forall a, b :: 0 <= a < b < |s.path| ==> s.path[a] != s.path[b]) &&
    (forall b :: 0 < b < |s.path| ==> From(w, t, s, b)) &&
    (forall a, b, i :: 0 <= a < b < |s.path| && 0 <= i < Sent(w, t, s, s.path[a]) ==> NotTo(w, s.path[a], i, s.path[b]))
  }

  ghost predicate From(w: Wiring, t: Table, s: Stack, b: nat)
    requires 0 < b < |s.path|
  {
    var x := s.path[b];
    x < |w| && x in t && t[x] < |w[x]| && w[x][t[x]].Port? && w[x][t[x]].node == s.path[b - 1]
  }

  ghost predicate NotTo(w: Wiring, x: nat, i: nat, e: nat) {
    x < |w| && i < |w[x]| && w[x][i].Port? ==> w[x][i].node != e
  }

  ghost predicate Flooding(w: Wiring, root: nat, g: nat, t: Table, order: seq<nat>, s: Stack) {
    Wired(w) && Hops(w, root, g, t, order) && AllSettled(w, t, s) && Stacked(w, root, t, s) &&
    forall x :: x in s.path && x in s.sent ==> x < |w| && s.sent[x] <= |w[x]|
  }

  /** The innermost forwarding dispatcher, about to forward to its gate `i`. */
  ghost predicate AtGate(w: Wiring, t: Table, s: Stack, x: nat, i: nat) {
    s.path != [] && s.path[|s.path| - 1] == x && Sent(w, t, s, x) == i && x < |w|
  }

  /** A registration arrives from outside, the first one or a later one, or from the innermost forwarding dispatcher. */
  ghost predicate Arrives(w: Wiring, root: nat, g: nat, t: Table, s: Stack, d: nat, gate: nat) {
    d < |w| && gate < |w[d]| &&
    if s.path == [] then d in t || (t == map[] && d == root && gate == g)
    else
      var x := s.path[|s.path| - 1];
      var i := Sent(w, t, s, x);
      x < |w| && i < |w[x]| && w[x][i] == Port(d, gate)
  }

  /** Dispatcher `d` on top, done with `i` gates. */
  function Pushed(s: Stack, d: nat, i: nat): Stack { Stack(s.path + [d], s.sent[d := i]) }

  function Advanced(s: Stack, x: nat, i: nat): Stack { Stack(s.path, s.sent[x := i]) }

  function Popped(s: Stack): Stack
    requires s.path != []
  {
    Stack(s.path[..|s.path| - 1], s.sent)
  }

  lemma PushedAdvanced(s: Stack, d: nat, i: nat)
    ensures Advanced(Pushed(s, d, i), d, i + 1) == Pushed(s, d, i + 1)
  {
    assert s.sent[d := i][d := i + 1] == s.sent[d := i + 1];
  }

  lemma PushedPath(s: Stack, d: nat, i: nat)
    ensures Pushed(s, d, i).path == s.path + [d]
  {
  }

  lemma PoppedPushed(s: Stack, d: nat, i: nat)
    ensures Pushed(s, d, i).path != [] && Popped(Pushed(s, d, i)) == Stack(s.path, s.sent[d := i])
  {
  }

  lemma EntryKept(t: Table, d: nat, gate: nat, now: Table)
    requires d !in t
    ensures Agrees(t[d := gate], now) ==> d in now && now[d] == gate && Agrees(t, now)
  {
  }

  lemma AgreesItself(t: Table)
    ensures Agrees(t, t)
  {
  }

  lemma AgreesTwice(a: Table, b: Table, c: Table)
    ensures Agrees(a, b) && Agrees(b, c) ==> Agrees(a, c)
  {
  }

  lemma StartHops(w: Wiring, root: nat, g: nat, t: Table, order: seq<nat>, s: Stack, d: nat, gate: nat)
    requires Flooding(w, root, g, t, order, s) && Arrives(w, root, g, t, s, d, gate) && d !in t
    ensures Hops(w, root, g, t[d := gate], order + [d])
  {
    var t', o := t[d := gate], order + [d];
    assert order != [] ==> order[0] in order;
    forall b | 0 <= b < |o| ensures NextHop(w, t', o, b) {
      if b < |order| {
        assert NextHop(w, t, order, b);
        assert o[..b] == order[..b];
      } else {
        assert o[..b] == order;
        if s.path != [] {
          var x := s.path[|s.path| - 1];
          assert Connected(w, x, Sent(w, t, s, x));
        }
      }
    }
    assert forall x :: x in t' <==> x in o;
  }

  lemma StartSettled(w: Wiring, root: nat, g: nat, t: Table, order: seq<nat>, s: Stack, d: nat, gate: nat)
    requires Flooding(w, root, g, t, order, s) && Arrives(w, root, g, t, s, d, gate) && d !in t
    ensures AllSettled(w, t[d := gate], Pushed(s, d, 0))
  {
    var t', s' := t[d := gate], Pushed(s, d, 0);
    forall x | x in t ensures Sent(w, t', s', x) == Sent(w, t, s, x) {
      assert x != d;
    }
    forall x, i | x in t' && x < |w| && 0 <= i < |w[x]| && i < Sent(w, t', s', x) ensures Settled(w, t', s', x, i) {
      assert x != d && Settled(w, t, s, x, i);
    }
  }

  lemma StartStacked(w: Wiring, root: nat, g: nat, t: Table, order: seq<nat>, s: Stack, d: nat, gate: nat)
    requires Flooding(w, root, g, t, order, s) && Arrives(w, root, g, t, s, d, gate) && d !in t
    ensures Stacked(w, root, t[d := gate], Pushed(s, d, 0))
  {
    var t', s' := t[d := gate], Pushed(s, d, 0);
    var p := s'.path;
    assert d !in s.path;
    forall b | 0 < b < |p| ensures From(w, t', s', b) {
      if b < |s.path| {
        assert From(w, t, s, b);
        assert p[b] in s.path;
      } else {
        var x := s.path[|s.path| - 1];
        assert Connected(w, x, Sent(w, t, s, x));
      }
    }
    forall a, b, i | 0 <= a < b < |p| && 0 <= i < Sent(w, t', s', p[a]) ensures NotTo(w, p[a], i, p[b]) {
      assert p[a] in s.path && Sent(w, t', s', p[a]) == Sent(w, t, s, p[a]);
      if b < |s.path| {
        assert NotTo(w, s.path[a], i, s.path[b]);
      } else if i < |w[p[a]]| {
        assert Settled(w, t, s, p[a], i);
      }
    }
  }

  /** A dispatcher without an entry takes one and starts forwarding. */
  lemma Start(w: Wiring, root: nat, g: nat, t: Table, order: seq<nat>, s: Stack, d: nat, gate: nat)
    requires Flooding(w, root, g, t, order, s) && Arrives(w, root, g, t, s, d, gate) && d !in t
    ensures Flooding(w, root, g, t[d := gate], order + [d], Pushed(s, d, 0))
    ensures AtGate(w, t[d := gate], Pushed(s, d, 0), d, 0)
  {
    StartHops(w, root, g, t, order, s, d, gate);
    StartSettled(w, root, g, t, order, s, d, gate);
    StartStacked(w, root, g, t, order, s, d, gate);
  }

  /** What forwarding to a gate has to achieve. */
  ghost predicate Passed(w: Wiring, t: Table, s: Stack, x: nat, i: nat)
    requires x < |w| && i < |w[x]|
  {
    w[x][i].Port? ==>
      var e, j := w[x][i].node, w[x][i].gate;
      e in t && (t[e] == j || (e in s.path && e != x))
  }

  /** A forwarding dispatcher that is passed over has not been here before. */
  lemma NotBefore(w: Wiring, root: nat, t: Table, s: Stack, x: nat, i: nat)
    requires Wired(w) && Stacked(w, root, t, s) && AtGate(w, t, s, x, i) && i < |w[x]| && w[x][i].Port? &&
      w[x][i].node in s.path && w[x][i].node != x
    ensures w[x][i].gate >= Sent(w, t, s, w[x][i].node)
  {
    var e, j := w[x][i].node, w[x][i].gate;
    assert Connected(w, x, i);
    var a :| 0 <= a < |s.path| && s.path[a] == e;
    assert j < Sent(w, t, s, s.path[a]) ==> NotTo(w, s.path[a], j, s.path[|s.path| - 1]);
  }

  lemma NextSettled(w: Wiring, root: nat, g: nat, t: Table, order: seq<nat>, s: Stack, x: nat, i: nat)
    requires Flooding(w, root, g, t, order, s) && AtGate(w, t, s, x, i) && i < |w[x]| && Passed(w, t, s, x, i)
    ensures AllSettled(w, t, Advanced(s, x, i + 1))
  {
    var s' := Advanced(s, x, i + 1);
    if w[x][i].Port? && w[x][i].node in s.path && w[x][i].node != x {
      NotBefore(w, root, t, s, x, i);
    }
    assert Connected(w, x, i);
    forall y | y != x ensures Sent(w, t, s', y) == Sent(w, t, s, y) {
    }
    forall y, k | y in t && y < |w| && 0 <= k < |w[y]| && k < Sent(w, t, s', y) ensures Settled(w, t, s', y, k) {
      assert Connected(w, y, k);
      if y != x || k != i {
        assert Settled(w, t, s, y, k);
      }
    }
  }

  /** The innermost forwarding dispatcher is done with a gate. */
  lemma Next(w: Wiring, root: nat, g: nat, t: Table, order: seq<nat>, s: Stack, x: nat, i: nat)
    requires Flooding(w, root, g, t, order, s) && AtGate(w, t, s, x, i) && i < |w[x]| && Passed(w, t, s, x, i)
    ensures Flooding(w, root, g, t, order, Advanced(s, x, i + 1)) && AtGate(w, t, Advanced(s, x, i + 1), x, i + 1)
  {
    var s' := Advanced(s, x, i + 1);
    NextSettled(w, root, g, t, order, s, x, i);
    forall b | 0 < b < |s'.path| ensures From(w, t, s', b) {
      assert From(w, t, s, b);
    }
    forall a, b, k | 0 <= a < b < |s'.path| && 0 <= k < Sent(w, t, s', s'.path[a])
      ensures NotTo(w, s'.path[a], k, s'.path[b]) {
      assert s.path[a] != x;
      assert NotTo(w, s.path[a], k, s.path[b]);
    }
  }

  /** The innermost forwarding dispatcher is done with all gates. */
  lemma Finish(w: Wiring, root: nat, g: nat, t: Table, order: seq<nat>, s: Stack, x: nat)
    requires Flooding(w, root, g, t, order, s) && x < |w| && AtGate(w, t, s, x, |w[x]|)
    ensures Flooding(w, root, g, t, order, Popped(s))
    ensures forall y :: y in Popped(s).path <==> y in s.path && y != x
    ensures forall y :: y in Popped(s).path ==> Sent(w, t, Popped(s), y) == Sent(w, t, s, y)
  {
    var s', n := Popped(s), |s.path| - 1;
    forall y ensures y in s'.path <==> y in s.path && y != x {
      if y in s.path {
        var a :| 0 <= a < |s.path| && s.path[a] == y;
        assert a < n ==> s'.path[a] == y;
      }
    }
    forall y ensures Sent(w, t, s', y) == Sent(w, t, s, y) {
      assert x in t;
    }
    forall y, k | y in t && y < |w| && 0 <= k < |w[y]| && k < Sent(w, t, s', y) ensures Settled(w, t, s', y, k) {
      assert Settled(w, t, s, y, k);
      assert Connected(w, y, k);
    }
    forall b | 0 < b < |s'.path| ensures From(w, t, s', b) {
      assert From(w, t, s, b);
    }
    forall a, b, k | 0 <= a < b < |s'.path| && 0 <= k < Sent(w, t, s', s'.path[a])
      ensures NotTo(w, s'.path[a], k, s'.path[b]) {
      assert NotTo(w, s.path[a], k, s.path[b]);
    }
  }

  /** Only what the forwarding dispatchers have sent matters. */
  lemma Restored(w: Wiring, root: nat, g: nat, t: Table, order: seq<nat>, s: Stack, s': Stack)
    requires Flooding(w, root, g, t, order, s) && s'.path == s.path
    requires forall y :: y in s.path ==> (y in s'.sent <==> y in s.sent) && (y in s.sent ==> s'.sent[y] == s.sent[y])
    ensures Flooding(w, root, g, t, order, s')
  {
    forall y ensures Sent(w, t, s', y) == Sent(w, t, s, y) {
    }
    forall y, k | y in t && y < |w| && 0 <= k < |w[y]| && k < Sent(w, t, s', y) ensures Settled(w, t, s', y, k) {
      assert Settled(w, t, s, y, k);
    }
    forall b | 0 < b < |s'.path| ensures From(w, t, s', b) {
      assert From(w, t, s, b);
    }
    forall a, b, k | 0 <= a < b < |s'.path| && 0 <= k < Sent(w, t, s', s'.path[a])
      ensures NotTo(w, s'.path[a], k, s'.path[b]) {
      assert NotTo(w, s.path[a], k, s.path[b]);
    }
  }

  /** When nobody is forwarding any more, every connection is somebody's next hop. */
  lemma Finished(w: Wiring, root: nat, g: nat, t: Table, order: seq<nat>, s: Stack)
    requires Flooding(w, root, g, t, order, s) && s.path == [] && t != map[]
    ensures IsTree(w, root, g, t, order) && Tree(w, root, g)
  {
    forall x, i | x in t && x < |w| && 0 <= i < |w[x]| ensures Used(w, t, x, i) {
      assert Settled(w, t, s, x, i);
    }
    var x :| x in t;
    assert x in order;
    assert IsTree(w, root, g, t, order);
  }

  /** A finished flood may be followed by another one. */
  lemma Idle(w: Wiring, root: nat, g: nat, t: Table, order: seq<nat>)
    requires Wired(w) && IsTree(w, root, g, t, order)
    ensures Flooding(w, root, g, t, order, Stack([], map[]))
  {
    var s := Stack([], map[]);
    forall x, i | x in t && x < |w| && 0 <= i < |w[x]| && i < Sent(w, t, s, x) ensures Settled(w, t, s, x, i) {
      assert Used(w, t, x, i);
    }
  }

  /** Behind its own entry there is a dispatcher that is forwarding, too. */
  lemma BackGate(w: Wiring, root: nat, g: nat, t: Table, order: seq<nat>, s: Stack, x: nat, i: nat)
    requires Flooding(w, root, g, t, order, s) && AtGate(w, t, s, x, i) && i < |w[x]|
    requires root < |w| && g < |w[root]| && w[root][g] == Outside && x in t && t[x] == i
    ensures Passed(w, t, s, x, i)
  {
    var n := |s.path| - 1;
    assert x in order;
    if n > 0 {
      assert From(w, t, s, n);
      assert s.path[n - 1] in s.path;
    }
  }

  // ---------- floods in trees ----------

  ghost predicate Agrees(t: Table, final: Table) {
    forall x :: x in t ==> x in final && t[x] == final[x]
  }

  /**
   * In a tree a gate leads back to where the registration came from, or to a dispatcher that is to be entered
   * there.
   */
  lemma TreeGate(w: Wiring, root: nat, g: nat, final: Table, full: seq<nat>, t: Table, order: seq<nat>, s: Stack,
                 x: nat, i: nat)
    requires IsTree(w, root, g, final, full) && root < |w| && g < |w[root]| && w[root][g] == Outside
    requires Flooding(w, root, g, t, order, s) && Agrees(t, final) && AtGate(w, t, s, x, i) && i < |w[x]| &&
      w[x][i].Port?
    ensures w[x][i].node in final
    ensures (final[w[x][i].node] == w[x][i].gate) || (t[x] == i && w[x][i].node in s.path)
    ensures x in t
  {
    assert x in s.path && x in t;
    assert Used(w, final, x, i);
    var n := |s.path| - 1;
    assert x in order;
    if n > 0 {
      assert From(w, t, s, n);
      assert s.path[n - 1] in s.path;
    }
  }
}
