/** Numbering the nodes of a dependency graph in passes over a list. */
module InitStageOrder {
  import opened Sequences

  /** A dependency names first the node that follows, then the node that precedes it. */
  type Dependency<T> = (T, T)

  /** Everything that has to precede the node is done. */
  predicate Ready<T(==)>(dependencies: seq<Dependency<T>>, done: seq<T>, s: T) {
    forall d :: d in dependencies && d.0 == s ==> d.1 in done
  }

  /** One pass: each node that is ready when its turn comes is appended. */
  function Pass<T(==)>(dependencies: seq<Dependency<T>>, done: seq<T>, nodes: seq<T>): seq<T> {
    if nodes == [] then done
    else Visited(dependencies, Pass(dependencies, done, nodes[..|nodes| - 1]), nodes[|nodes| - 1])
  }

  function Visited<T(==)>(dependencies: seq<Dependency<T>>, done: seq<T>, s: T): seq<T> {
    if s !in done && Ready(dependencies, done, s) then done + [s] else done
  }

  /** A partial numbering: no node twice, and every node after all that precede it. */
  ghost predicate Legal<T>(dependencies: seq<Dependency<T>>, done: seq<T>, nodes: seq<T>) {
    Distinct(done) && (forall i :: 0 <= i < |done| ==> done[i] in nodes && Ready(dependencies, done[..i], done[i]))
  }

  lemma VisitedLegal<T>(dependencies: seq<Dependency<T>>, done: seq<T>, nodes: seq<T>, s: T)
    requires Legal(dependencies, done, nodes) && s in nodes
    ensures Legal(dependencies, Visited(dependencies, done, s), nodes) && done <= Visited(dependencies, done, s)
  {
    var v := Visited(dependencies, done, s);
    forall i | 0 <= i < |v| ensures v[i] in nodes && Ready(dependencies, v[..i], v[i]) {
      assert v[..i] == done[..i];
      assert done[..|done|] == done;
    }
  }

  lemma {:induction false} PassLegal<T>(dependencies: seq<Dependency<T>>, done: seq<T>, part: seq<T>, nodes: seq<T>)
    requires Legal(dependencies, done, nodes) && forall s :: s in part ==> s in nodes
    ensures Legal(dependencies, Pass(dependencies, done, part), nodes) && done <= Pass(dependencies, done, part)
  {
    if part != [] {
      PassLegal(dependencies, done, part[..|part| - 1], nodes);
      VisitedLegal(dependencies, Pass(dependencies, done, part[..|part| - 1]), nodes, part[|part| - 1]);
    }
  }

  // ---------- counting ----------

  /** A partial numbering is no longer than the list, and complete only if it has every node. */
  lemma LegalFits<T>(dependencies: seq<Dependency<T>>, done: seq<T>, nodes: seq<T>)
    requires Legal(dependencies, done, nodes) && Distinct(nodes)
    ensures |done| <= |nodes|
    ensures |done| == |nodes| <==> forall s :: s in nodes ==> s in done
  {
    DistinctCount(done);
    DistinctCount(nodes);
    Fits(Elements(done), Elements(nodes));
    if |done| == |nodes| {
      forall s | s in nodes ensures s in done {
        assert s in Elements(nodes);
      }
    } else if forall s :: s in nodes ==> s in done {
      Fits(Elements(nodes), Elements(done));
    }
  }

  /** Passes are repeated until one of them numbers nothing. */
  ghost function Passes<T>(dependencies: seq<Dependency<T>>, done: seq<T>, nodes: seq<T>): seq<T>
    requires Legal(dependencies, done, nodes) && Distinct(nodes)
    decreases |nodes| - |done|
  {
    PassLegal(dependencies, done, nodes, nodes);
    LegalFits(dependencies, Pass(dependencies, done, nodes), nodes);
    var next := Pass(dependencies, done, nodes);
    if |next| == |done| then done else Passes(dependencies, next, nodes)
  }

  ghost function Numbering<T>(dependencies: seq<Dependency<T>>, nodes: seq<T>): seq<T>
    requires Distinct(nodes)
  {
    Passes(dependencies, [], nodes)
  }

  /** What one pass does for the numbering. */
  lemma PassOnce<T>(dependencies: seq<Dependency<T>>, done: seq<T>, nodes: seq<T>)
    requires Legal(dependencies, done, nodes) && Distinct(nodes)
    ensures var next := Pass(dependencies, done, nodes);
      Legal(dependencies, next, nodes) && |done| <= |next| <= |nodes| && (next == done <==> |next| == |done|) &&
      Passes(dependencies, done, nodes) == if next == done then done else Passes(dependencies, next, nodes)
  {
    PassLegal(dependencies, done, nodes, nodes);
    LegalFits(dependencies, Pass(dependencies, done, nodes), nodes);
  }

  lemma AllDone<T>(dependencies: seq<Dependency<T>>, done: seq<T>, nodes: seq<T>)
    requires Legal(dependencies, done, nodes) && Distinct(nodes) && |done| >= |nodes|
    ensures Passes(dependencies, done, nodes) == done && |done| == |nodes| && forall s :: s in nodes ==> s in done
  {
    PassOnce(dependencies, done, nodes);
    LegalFits(dependencies, done, nodes);
  }

  // ---------- cycles ----------

  /** Each node of a cycle has the next one as a predecessor. */
  ghost predicate Cycle<T>(dependencies: seq<Dependency<T>>, c: seq<T>) {
    c != [] && forall i :: 0 <= i < |c| ==> (c[i], c[if i + 1 == |c| then 0 else i + 1]) in dependencies
  }

  ghost predicate Acyclic<T(!new)>(dependencies: seq<Dependency<T>>) {
    forall c: seq<T> :: !Cycle(dependencies, c)
  }

  lemma OwnCircle<T(!new)>(dependencies: seq<Dependency<T>>, x: T)
    requires (x, x) in dependencies
    ensures !Acyclic(dependencies)
  {
    assert Cycle(dependencies, [x]);
  }

  ghost predicate Known<T>(dependencies: seq<Dependency<T>>, nodes: seq<T>) {
    forall d :: d in dependencies ==> d.0 in nodes && d.1 in nodes
  }

  /** In a complete numbering numbers go down along every dependency, and so cannot come back. */
  lemma {:induction false} NoCycleNumbered<T>(dependencies: seq<Dependency<T>>, done: seq<T>, nodes: seq<T>,
                                              c: seq<T>, k: nat)
    requires Legal(dependencies, done, nodes) && Cycle(dependencies, c) && c[0] in done && k < |c|
    ensures c[k] in done && Position(done, c[k]) + k <= Position(done, c[0])
  {
    if k > 0 {
      NoCycleNumbered(dependencies, done, nodes, c, k - 1);
      StepDown(dependencies, done, nodes, c[k - 1], c[k]);
    }
  }

  lemma StepDown<T>(dependencies: seq<Dependency<T>>, done: seq<T>, nodes: seq<T>, s: T, p: T)
    requires Legal(dependencies, done, nodes) && (s, p) in dependencies && s in done
    ensures p in done && Position(done, p) < Position(done, s)
  {
    var i := Position(done, s);
    assert Ready(dependencies, done[..i], done[i]);
    assert (s, p).0 == s;
    assert p in done[..i];
    var j :| 0 <= j < i && done[j] == p;
    assert done[Position(done, p)] == p;
  }

  lemma CompleteIsAcyclic<T>(dependencies: seq<Dependency<T>>, done: seq<T>, nodes: seq<T>, c: seq<T>)
    requires Legal(dependencies, done, nodes) && Known(dependencies, nodes) && forall s :: s in nodes ==> s in done
    ensures !Cycle(dependencies, c)
  {
    if Cycle(dependencies, c) {
      assert (c[0], c[if 1 == |c| then 0 else 1]) in dependencies;
      NoCycleNumbered(dependencies, done, nodes, c, |c| - 1);
      StepDown(dependencies, done, nodes, c[|c| - 1], c[0]);
    }
  }

  /** A node left over by a pass that numbers nothing has a predecessor that is left over, too. */
  lemma {:induction false} PassStuck<T>(dependencies: seq<Dependency<T>>, done: seq<T>, nodes: seq<T>, s: T)
    requires |Pass(dependencies, done, nodes)| == |done| && s in nodes && s !in done
    ensures !Ready(dependencies, done, s)
  {
    var most := nodes[..|nodes| - 1];
    PassGrows(dependencies, done, most);
    assert Pass(dependencies, done, most) == done;
    if s != nodes[|nodes| - 1] {
      assert s in most;
      PassStuck(dependencies, done, most, s);
    }
  }

  lemma {:induction false} PassGrows<T>(dependencies: seq<Dependency<T>>, done: seq<T>, nodes: seq<T>)
    ensures done <= Pass(dependencies, done, nodes)
  {
    if nodes != [] {
      PassGrows(dependencies, done, nodes[..|nodes| - 1]);
    }
  }

  ghost predicate Stuck<T>(dependencies: seq<Dependency<T>>, done: seq<T>, s: T) {
    s !in done && !Ready(dependencies, done, s)
  }

  /** A walk along predecessors, never leaving the nodes that are left over. */
  ghost predicate Walk<T>(dependencies: seq<Dependency<T>>, w: seq<T>) {
    forall i :: 0 <= i < |w| - 1 ==> (w[i], w[i + 1]) in dependencies
  }

  lemma {:induction false} LongWalk<T>(dependencies: seq<Dependency<T>>, done: seq<T>, nodes: seq<T>, s: T, n: nat)
    returns (w: seq<T>)
    requires Known(dependencies, nodes) && s in nodes && Stuck(dependencies, done, s)
    requires forall x :: x in nodes && x !in done ==> Stuck(dependencies, done, x)
    ensures |w| == n + 1 && w[0] == s && Walk(dependencies, w) && forall x :: x in w ==> x in nodes
  {
    if n == 0 {
      w := [s];
    } else {
      var d :| d in dependencies && d.0 == s && d.1 !in done;
      var rest := LongWalk(dependencies, done, nodes, d.1, n - 1);
      w := [s] + rest;
      forall i | 0 <= i < |w| - 1 ensures (w[i], w[i + 1]) in dependencies {
        if i == 0 {
          assert d == (d.0, d.1);
        } else {
          assert w[i] == rest[i - 1] && w[i + 1] == rest[i];
        }
      }
    }
  }

  /** A walk that comes back to a node has gone round a cycle. */
  lemma WalkClosed<T>(dependencies: seq<Dependency<T>>, w: seq<T>, i: nat, j: nat)
    requires Walk(dependencies, w) && i < j < |w| && w[i] == w[j]
    ensures Cycle(dependencies, w[i..j])
  {
    var c := w[i..j];
    forall k | 0 <= k < |c| ensures (c[k], c[if k + 1 == |c| then 0 else k + 1]) in dependencies {
      assert (w[i + k], w[i + k + 1]) in dependencies;
    }
  }

  lemma StuckIsCyclic<T>(dependencies: seq<Dependency<T>>, done: seq<T>, nodes: seq<T>) returns (c: seq<T>)
    requires Legal(dependencies, done, nodes) && Distinct(nodes) && Known(dependencies, nodes)
    requires |Pass(dependencies, done, nodes)| == |done| < |nodes|
    ensures Cycle(dependencies, c)
  {
    LegalFits(dependencies, done, nodes);
    var s :| s in nodes && s !in done;
    forall x | x in nodes && x !in done ensures Stuck(dependencies, done, x) {
      PassStuck(dependencies, done, nodes, x);
    }
    var w := LongWalk(dependencies, done, nodes, s, |nodes|);
    if Distinct(w) {
      DistinctCount(w);
      DistinctCount(nodes);
      Fits(Elements(w), Elements(nodes));
      assert false;
    }
    var i, j :| 0 <= i < j < |w| && w[i] == w[j];
    WalkClosed(dependencies, w, i, j);
    c := w[i..j];
  }

  // ---------- the numbering ----------

  lemma {:induction false} PassesResult<T>(dependencies: seq<Dependency<T>>, done: seq<T>, nodes: seq<T>)
    requires Legal(dependencies, done, nodes) && Distinct(nodes)
    ensures var n := Passes(dependencies, done, nodes);
      Legal(dependencies, n, nodes) && |Pass(dependencies, n, nodes)| == |n|
    decreases |nodes| - |done|
  {
    PassLegal(dependencies, done, nodes, nodes);
    var next := Pass(dependencies, done, nodes);
    LegalFits(dependencies, next, nodes);
    if |next| != |done| {
      PassesResult(dependencies, next, nodes);
    }
  }

  /** All nodes get a number exactly if the dependencies have no cycle. */
  lemma NumberedIffAcyclic<T(!new)>(dependencies: seq<Dependency<T>>, nodes: seq<T>)
    requires Distinct(nodes) && Known(dependencies, nodes)
    ensures Legal(dependencies, Numbering(dependencies, nodes), nodes)
    ensures |Numbering(dependencies, nodes)| == |nodes| <==> Acyclic(dependencies)
  {
    var n := Numbering(dependencies, nodes);
    PassesResult(dependencies, [], nodes);
    LegalFits(dependencies, n, nodes);
    if |n| == |nodes| {
      forall c: seq<T> ensures !Cycle(dependencies, c) {
        CompleteIsAcyclic(dependencies, n, nodes, c);
      }
    } else {
      var c := StuckIsCyclic(dependencies, n, nodes);
    }
  }

  // ---------- stability ----------

  /** A list in which every node comes after all that precede it is numbered as it stands, in one pass. */
  lemma {:induction false} SortedPass<T>(dependencies: seq<Dependency<T>>, nodes: seq<T>, k: nat)
    requires Distinct(nodes) && k <= |nodes|
    requires forall i :: 0 <= i < k ==> Ready(dependencies, nodes[..i], nodes[i])
    ensures Pass(dependencies, [], nodes[..k]) == nodes[..k]
  {
    if k > 0 {
      SortedPass(dependencies, nodes, k - 1);
      assert nodes[..k][..k - 1] == nodes[..k - 1];
    }
  }

  /** A list that is a legal numbering of itself is numbered as it stands. */
  lemma LegalIsStable<T>(dependencies: seq<Dependency<T>>, nodes: seq<T>)
    requires Distinct(nodes) && Legal(dependencies, nodes, nodes)
    ensures Pass(dependencies, [], nodes) == nodes && Numbering(dependencies, nodes) == nodes
  {
    SortedPass(dependencies, nodes, |nodes|);
    assert nodes[..|nodes|] == nodes;
    OnePass(dependencies, nodes);
  }

  /** Numbering the sorted list again gives the same numbers, in one pass. */
  lemma NumberedAgain<T>(dependencies: seq<Dependency<T>>, nodes: seq<T>)
    requires Distinct(nodes) && |Numbering(dependencies, nodes)| == |nodes|
    ensures var n := Numbering(dependencies, nodes);
      Legal(dependencies, n, n) && Pass(dependencies, [], n) == n && Numbering(dependencies, n) == n
  {
    var n := Numbering(dependencies, nodes);
    PassesResult(dependencies, [], nodes);
    LegalIsStable(dependencies, n);
  }

  lemma OnePass<T>(dependencies: seq<Dependency<T>>, nodes: seq<T>)
    requires Distinct(nodes) && Pass(dependencies, [], nodes) == nodes
    ensures Numbering(dependencies, nodes) == nodes
  {
    if nodes != [] {
      PassLegal(dependencies, [], nodes, nodes);
      PassLegal(dependencies, nodes, nodes, nodes);
      LegalFits(dependencies, Pass(dependencies, nodes, nodes), nodes);
      assert Passes(dependencies, nodes, nodes) == nodes;
    }
  }

  lemma {:induction false} PassesGrow<T>(dependencies: seq<Dependency<T>>, done: seq<T>, nodes: seq<T>)
    requires Legal(dependencies, done, nodes) && Distinct(nodes)
    ensures done <= Passes(dependencies, done, nodes)
    decreases |nodes| - |done|
  {
    PassLegal(dependencies, done, nodes, nodes);
    var next := Pass(dependencies, done, nodes);
    LegalFits(dependencies, next, nodes);
    if |next| != |done| {
      PassesGrow(dependencies, next, nodes);
    }
  }

  lemma {:induction false} PassOfBoth<T>(dependencies: seq<Dependency<T>>, done: seq<T>, a: seq<T>, b: seq<T>)
    ensures Pass(dependencies, done, a + b) == Pass(dependencies, Pass(dependencies, done, a), b)
  {
    if b == [] {
      assert a + b == a;
    } else {
      assert (a + b)[..|a + b| - 1] == a + b[..|b| - 1];
      PassOfBoth(dependencies, done, a, b[..|b| - 1]);
    }
  }

  /**
   * New nodes at the end of a sorted list, with new dependencies that only make new nodes follow others,
   * leave the numbers of the old ones as they are.
   */
  lemma AppendedKeepNumbers<T>(present: seq<Dependency<T>>, nodes: seq<T>, added: seq<Dependency<T>>, more: seq<T>)
    requires Distinct(nodes + more) && Legal(present, nodes, nodes)
    requires forall d :: d in added ==> d.0 !in nodes
    ensures nodes <= Numbering(present + added, nodes + more)
  {
    var all, list := present + added, nodes + more;
    forall i | 0 <= i < |nodes| ensures Ready(all, nodes[..i], nodes[i]) {
      assert Ready(present, nodes[..i], nodes[i]);
    }
    SortedPass(all, nodes, |nodes|);
    assert nodes[..|nodes|] == nodes;
    PassOfBoth(all, [], nodes, more);
    PassGrows(all, nodes, more);
    PassLegal(all, [], list, list);
    LegalFits(all, Pass(all, [], list), list);
    var next := Pass(all, [], list);
    assert nodes <= next;
    if |next| != 0 {
      PassesGrow(all, next, list);
    }
  }
}
