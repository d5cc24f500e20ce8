/** The states of a Macho machine, what their user code observes, and what a well-behaved run looks like. */
module MachoStates {
  import opened Sequences

  /** A live box and the cached memory of a dead one. */
  datatype Slot = Slot(box: Option<Box>, place: bool)

  datatype HistoryMode = NoHistory | Shallow | Deep

  /** The box shared by all states without a box class, or one constructed object, told apart by its serial number. */
  datatype Box = EmptyBox | Own(serial: nat)

  /**
   * A state of one machine. Parent, history strategy and box class come from the declaration of the state;
   * the path from Root down to the state says where it is in the hierarchy.
   */
  class State {
    const parent: State?
    const mode: HistoryMode
    const ownBox: bool
    const persistent: bool
    ghost const path: seq<State>

    var myHistory: State?
    var myBox: Option<Box>
    var myBoxPlace: bool

    constructor (parent: State?, mode: HistoryMode, ownBox: bool, persistent: bool)
      ensures this.parent == parent && this.mode == mode && this.ownBox == ownBox && this.persistent == persistent
      ensures path == (if parent == null then [] else parent.path) + [this]
      ensures myHistory == null && myBox == None && !myBoxPlace
    {
      this.parent, this.mode, this.ownBox, this.persistent := parent, mode, ownBox, persistent;
      path := (if parent == null then [] else parent.path) + [this];
      myHistory, myBox, myBoxPlace := null, None, false;
    }

    ghost function Here(): Slot
      reads this`myBox, this`myBoxPlace
    {
      Slot(myBox, myBoxPlace)
    }

    /** Keeps a live box; otherwise constructs one, in the cached memory if there is any. */
    method CreateBox(serial: nat)
      modifies this`myBox, this`myBoxPlace
      ensures Here() == Created(this, old(Here()), serial)
      ensures myBox.Some? && (ownBox && old(myBox).None? ==> myBox == Some(Own(serial)) && !myBoxPlace)
    {
      if myBox.None? {
        if ownBox {
          myBox, myBoxPlace := Some(Own(serial)), false;
        } else {
          myBox := Some(EmptyBox);
        }
      }
    }

    /** Destroys the box and caches its memory; the empty box and the box of a persistent state survive. */
    method DeleteBox()
      requires myBox.Some? && (myBox.value.Own? ==> !myBoxPlace)
      modifies this`myBox, this`myBoxPlace
      ensures Here() == Destroyed(this, old(Here()))
    {
      if myBox != Some(EmptyBox) && !persistent {
        myBox, myBoxPlace := None, true;
      }
    }

    /** Supplies the box from outside, before the machine starts. */
    method SetBox(box: Option<Box>)
      requires myBox.None?
      modifies this`myBox, this`myBoxPlace
      ensures myBox == box && !myBoxPlace
    {
      myBoxPlace := false;
      myBox := box;
    }
  }

  ghost function Created(s: State, slot: Slot, serial: nat): Slot {
    if slot.box.Some? then slot
    else if s.ownBox then Slot(Some(Own(serial)), false)
    else Slot(Some(EmptyBox), slot.place)
  }

  ghost function Destroyed(s: State, slot: Slot): Slot {
    if slot.box == Some(EmptyBox) || s.persistent then slot else Slot(None, true)
  }

  // ---------- the hierarchy ----------

  /** A tree of states: everything but Root hangs below its parent. */
  ghost predicate Rooted(states: set<State>, root: State) {
    root in states && forall s {:trigger Placed(states, root, s)} :: s in states ==> Placed(states, root, s)
  }

  ghost predicate Placed(states: set<State>, root: State, s: State) {
    if s == root then s.parent == null && s.path == [s] && s.mode == NoHistory && !s.ownBox
    else s.parent != null && s.parent in states && s.path == s.parent.path + [s] && 2 <= |s.path|
  }

  ghost predicate OnlyBelowRoot(top: State, states: set<State>, root: State) {
    forall s :: s in states && s.parent == root ==> s == top
  }

  /** Is `other` the state itself or one of its superstates? */
  predicate IsChild(s: State, other: State, ghost states: set<State>, ghost root: State)
    requires Rooted(states, root) && s in states
    decreases |s.path|
  {
    assert Placed(states, root, s);
    s == other || (s.parent != null && IsChild(s.parent, other, states, root))
  }

  lemma PathInTree(states: set<State>, root: State, s: State, i: nat)
    requires Rooted(states, root) && s in states && i < |s.path|
    ensures s.path[i] in states && s.path[i].path == s.path[..i + 1] && s.path[0] == root
    decreases |s.path|
  {
    assert Placed(states, root, s);
    if s != root {
      if i < |s.path| - 1 {
        PathInTree(states, root, s.parent, i);
        assert s.path[..i + 1] == s.parent.path[..i + 1];
      } else {
        PathInTree(states, root, s.parent, 0);
        assert s.path[..i + 1] == s.path;
      }
    }
  }

  lemma PathEnds(states: set<State>, root: State, s: State)
    requires Rooted(states, root) && s in states
    ensures s.path != [] && s.path[|s.path| - 1] == s && s.path[0] == root
    ensures s != root ==> s.parent != null && s.parent in states && s.path[..|s.path| - 1] == s.parent.path
    ensures |s.path| == 1 <==> s == root
    ensures s.parent == null <==> s == root
  {
    assert Placed(states, root, s);
    PathInTree(states, root, s, 0);
  }

  /** Walking up the parents decides the prefix order on paths. */
  lemma {:induction false} IsChildIsPrefix(s: State, other: State, states: set<State>, root: State)
    requires Rooted(states, root) && s in states && other in states
    ensures IsChild(s, other, states, root) <==> other.path <= s.path
    decreases |s.path|
  {
    PathEnds(states, root, s);
    PathEnds(states, root, other);
    if s != root {
      IsChildIsPrefix(s.parent, other, states, root);
      if other.path <= s.path && |other.path| < |s.path| {
        assert other.path <= s.path[..|s.path| - 1];
      }
    }
  }

  /** A bound for the depth of the states. */
  ghost function Height(states: set<State>): (h: nat)
    ensures forall s :: s in states ==> |s.path| <= h
  {
    if states == {} then 0
    else
      var s :| s in states;
      var h := Height(states - {s});
      if |s.path| > h then |s.path| else h
  }

  // ---------- transitions ----------

  function Common<T(==)>(a: seq<T>, b: seq<T>): (n: nat)
    ensures n <= |a| && n <= |b| && a[..n] == b[..n]
    ensures n < |a| && n < |b| ==> a[n] != b[n]
  {
    if a == [] || b == [] || a[0] != b[0] then 0
    else
      var n := Common(a[1..], b[1..]);
      assert a[..n + 1] == [a[0]] + a[1..][..n] && b[..n + 1] == [b[0]] + b[1..][..n];
      1 + n
  }

  /** How many of the states around `cur`, counted from Root, stay active in a transition to `next`. */
  ghost function Kept(cur: State, next: State): (n: nat)
    requires cur.path != [] && next.path != []
    ensures 1 <= n <= |cur.path|
  {
    var n := Common(cur.path, next.path[..|next.path| - 1]);
    if n == 0 then 1 else n
  }

  /** Exactly the proper superstates of the target stay active. */
  lemma KeptMeansProperSuperstate(cur: State, next: State, i: nat, states: set<State>, root: State)
    requires Rooted(states, root) && cur in states && next in states && 1 <= i < |cur.path|
    ensures next.path != [] && (i < Kept(cur, next) <==> cur.path[i].path < next.path)
    ensures next != root ==> Kept(cur, next) < |next.path|
    ensures next == root ==> Kept(cur, next) == 1
  {
    PathInTree(states, root, cur, i);
    PathEnds(states, root, next);
    var n := Common(cur.path, next.path[..|next.path| - 1]);
    if next != root {
      PathEnds(states, root, next.parent);
      PathEnds(states, root, cur);
      assert n >= 1;
    }
    if i < n {
      assert cur.path[..i + 1] == cur.path[..n][..i + 1] == next.path[..n][..i + 1];
    }
  }

  // ---------- what the user's code sees ----------

  type Event = nat

  /** A call of user code; entry and exit actions see the box of their state. */
  datatype Call = Entered(s: State, box: Box) | Exited(s: State, box: Box) | Initialized(s: State, param: Option<nat>)
    | Handled(s: State, event: Event)

  datatype Frame = Frame(s: State, box: Box)

  datatype Nesting = Broken | Nested(frames: seq<Frame>)

  /** Replays a sequence of calls: which states are entered and not yet exited? */
  ghost function Open(calls: seq<Call>): Nesting {
    if calls == [] then Nested([]) else After(Open(calls[..|calls| - 1]), calls[|calls| - 1])
  }

  /**
   * States are entered below the innermost open one and exited innermost first, with the box they were
   * entered with.
   */
  ghost function After(n: Nesting, c: Call): Nesting {
    if n.Broken? then Broken else
    var f := n.frames;
    match c
    case Entered(s, b) =>
      if s.parent != null && (if f == [] then s.parent.parent == null else s.parent == f[|f| - 1].s)
      then Nested(f + [Frame(s, b)]) else Broken
    case Exited(s, b) => if f != [] && f[|f| - 1] == Frame(s, b) then Nested(f[..|f| - 1]) else Broken
    case Initialized(s, _) => if f != [] && f[|f| - 1].s == s then n else Broken
    case Handled(s, _) => if f != [] && f[|f| - 1].s == s then n else Broken
  }

  ghost function Entries(calls: seq<Call>, s: State): nat {
    if calls == [] then 0
    else Entries(calls[..|calls| - 1], s) + if calls[|calls| - 1].Entered? && calls[|calls| - 1].s == s then 1 else 0
  }

  ghost function Exits(calls: seq<Call>, s: State): nat {
    if calls == [] then 0
    else Exits(calls[..|calls| - 1], s) + if calls[|calls| - 1].Exited? && calls[|calls| - 1].s == s then 1 else 0
  }

  ghost function Occurrences(f: seq<Frame>, s: State): nat {
    if f == [] then 0
    else Occurrences(f[..|f| - 1], s) + if f[|f| - 1].s == s then 1 else 0
  }

  /** Every entry is still open or has had its exit. */
  lemma {:induction false} EntriesHaveExits(calls: seq<Call>, s: State)
    requires Open(calls).Nested?
    ensures Entries(calls, s) == Exits(calls, s) + Occurrences(Open(calls).frames, s)
  {
    if calls != [] {
      EntriesHaveExits(calls[..|calls| - 1], s);
      var f, c := Open(calls[..|calls| - 1]).frames, calls[|calls| - 1];
      if c.Entered? {
        assert (f + [Frame(c.s, c.box)])[..|f|] == f;
      }
    }
  }

  /** The box that the latest entry of the state saw. */
  ghost function LastBox(calls: seq<Call>, s: State): Option<Box> {
    if calls == [] then None
    else
      var c := calls[|calls| - 1];
      if c.Entered? && c.s == s then Some(c.box) else LastBox(calls[..|calls| - 1], s)
  }

  lemma {:induction false} OpenHasBox(calls: seq<Call>, i: nat)
    requires Open(calls).Nested? && i < |Open(calls).frames|
    ensures LastBox(calls, Open(calls).frames[i].s).Some?
  {
    var before, c := calls[..|calls| - 1], calls[|calls| - 1];
    if !(c.Entered? && i == |Open(calls).frames| - 1) {
      OpenHasBox(before, i);
    }
  }

  ghost function Serials(calls: seq<Call>): set<nat> {
    if calls == [] then {}
    else
      var c := calls[|calls| - 1];
      Serials(calls[..|calls| - 1]) + if c.Entered? && c.box.Own? then {c.box.serial} else {}
  }

  /**
   * The life of boxes as entries see it: a state without box class has the empty box; a persistent box is
   * the same at every entry; any other box has been constructed for this entry.
   */
  ghost predicate BoxesKept(calls: seq<Call>) {
    calls == [] ||
    var before, c := calls[..|calls| - 1], calls[|calls| - 1];
    BoxesKept(before) && (c.Entered? ==> RightBox(before, c.s, c.box))
  }

  ghost predicate RightBox(before: seq<Call>, s: State, box: Box) {
    if !s.ownBox then box == EmptyBox
    else if s.persistent && LastBox(before, s).Some? then Some(box) == LastBox(before, s)
    else box.Own? && box.serial !in Serials(before)
  }

  lemma {:induction false} LastBoxKnown(calls: seq<Call>, s: State)
    requires BoxesKept(calls) && LastBox(calls, s).Some?
    ensures var b := LastBox(calls, s).value;
      if s.ownBox then b.Own? && b.serial in Serials(calls) else b == EmptyBox
  {
    var before, c := calls[..|calls| - 1], calls[|calls| - 1];
    if !(c.Entered? && c.s == s) || (s.ownBox && s.persistent && LastBox(before, s).Some?) {
      LastBoxKnown(before, s);
    }
  }

  lemma Logged(calls: seq<Call>, c: Call)
    ensures Open(calls + [c]) == After(Open(calls), c)
    ensures Serials(calls + [c]) == Serials(calls) + if c.Entered? && c.box.Own? then {c.box.serial} else {}
    ensures BoxesKept(calls + [c]) <==> BoxesKept(calls) && (c.Entered? ==> RightBox(calls, c.s, c.box))
    ensures forall s :: LastBox(calls + [c], s) == if c.Entered? && c.s == s then Some(c.box) else LastBox(calls, s)
  {
    assert (calls + [c])[..|calls|] == calls;
  }

  /** The calls are the exits of the states on the path, innermost first. */
  ghost predicate AreExits(calls: seq<Call>, path: seq<State>) {
    |calls| == |path| && forall i :: 0 <= i < |path| ==> calls[i].Exited? && calls[i].s == path[|path| - 1 - i]
  }

  /** The calls are the entries of the states on the path, outermost first. */
  ghost predicate AreEntries(calls: seq<Call>, path: seq<State>) {
    |calls| == |path| && forall i :: 0 <= i < |path| ==> calls[i].Entered? && calls[i].s == path[i]
  }

  lemma EntriesJoin(a: seq<Call>, path: seq<State>, b: seq<Call>, s: State)
    requires AreEntries(b, [s])
    ensures AreEntries(a, path) ==> AreEntries(a + b, path + [s])
  {
  }

  lemma ExitsJoin(a: seq<Call>, s: State, b: seq<Call>, path: seq<State>)
    requires AreExits(a, [s])
    ensures AreExits(b, path) ==> AreExits(a + b, path + [s])
  {
  }

}
