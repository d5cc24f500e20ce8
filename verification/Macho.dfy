/** The Macho state machine engine. */
module Macho {
  import opened MachoStates
  import opened Sequences

  /**
   * How a transition initializes its target. The default and history initializers are singletons of a
   * translation unit; the others are created anew for every transition.
   */
  datatype Initializer = Default(unit: nat) | History(unit: nat) | Adapting | Param(param: nat)

  predicate SameObject(a: Initializer, b: Initializer) {
    a == b && (a.Default? || a.History?)
  }

  /** What user code may ask of its machine. */
  datatype Action =
    | SetState(target: State, init: Initializer)
    | Dispatch(event: Event)
    | ClearHistory(target: State)
    | ClearHistoryDeep(target: State)

  /** User code, deciding on everything that happened so far. */
  type Behaviour = (Call, seq<Call>) -> seq<Action>

  /** The transition that is pending, if any. */
  datatype Wanted = Nothing | Going(next: State, init: Initializer)

  /** The engine blocks events in exits, entries and inits by a dummy. */
  datatype PendingEvent = NoEvent | Dummy | Pending(event: Event)

  /**
   * A transition of a run, as the calls before it since the last one, its own calls and the histories after
   * it show it.
   */
  datatype Leg = Leg(idle: seq<Call>, cur: State, next: State, init: Initializer, outs: seq<Call>, ins: seq<Call>,
                     inits: seq<Call>, after: map<State, State?>, pending: Wanted)

  /** Where the engine is between two steps. */
  datatype Situation = Situation(cur: State, want: Wanted, event: PendingEvent, log: seq<Call>,
                                 histories: map<State, State?>)

  /** What makes it go on: a pending transition or event, or a request from outside while nothing is pending. */
  datatype Cause = Moving(leg: Leg) | Serving | Told(want: Wanted) | Given(event: Event)

  datatype Step = Step(from: Situation, cause: Cause, to: Situation)

  class Machine {
    const states: set<State>
    const root: State
    const top: State
    const behaviour: Behaviour
    ghost const height: nat

    var myCurrentState: State?
    var myPendingState: State?
    var myPendingInit: Initializer
    var myPendingEvent: PendingEvent
    var constructed: nat
    var calls: seq<Call>
    ghost var legs: seq<Leg>

    /** A new machine is at Root, with a box for the top state if one is supplied. */
    constructor (states: set<State>, root: State, top: State, behaviour: Behaviour, supplied: bool)
      requires Rooted(states, root) && top in states && top.parent == root
      requires supplied ==> top.ownBox
      requires forall s :: s in states ==> s.myHistory == null && s.myBox == None && !s.myBoxPlace
      modifies top`myBox, top`myBoxPlace
      ensures Valid() && myCurrentState == root && calls == [] && legs == []
      ensures this.states == states && this.root == root && this.top == top && this.behaviour == behaviour
      ensures top.myBox == (if supplied then Some(Own(0)) else None) && !top.myBoxPlace
    {
      this.states, this.root, this.top, this.behaviour := states, root, top, behaviour;
      height := Height(states);
      myCurrentState, myPendingState, myPendingInit, myPendingEvent := root, null, Default(0), NoEvent;
      constructed, calls, legs := 1, [], [];
      new;
      hide Trace, Sound, Rooted;
      TraceStarts();
      PathEnds(states, root, top);
      PathEnds(states, root, root);
      top.SetBox(if supplied then Some(Own(0)) else None);
      assert Histories() == NoHistories();
      NothingYet(Slots());
    }

    lemma NothingYet(b: map<State, Slot>)
      requires b.Keys == states && root in states && root.path == [root]
      requires forall s :: s in b ==>
        b[s] == Slot(None, false) || (s == top && top.ownBox && b[s] == Slot(Some(Own(0)), false))
      ensures Sound(root, [], b, 1)
    {
    }

    // ---------- invariants ----------

    /** The hierarchy of this machine. */
    ghost predicate Declared() {
      Rooted(states, root) && top in states && top.parent == root &&
      (forall s :: s in states ==> |s.path| <= height)
    }

    /** All history pointers. */
    ghost function Histories(): map<State, State?>
      reads states`myHistory
    {
      map s | s in states :: s.myHistory
    }

    /** A history pointer designates a proper substate of its owner. */
    ghost predicate HistoryFine()
      reads states`myHistory
    {
      Fine(Histories())
    }

    ghost predicate Fine(h: map<State, State?>) {
      forall s :: s in h ==> Designates(s, h[s])
    }

    lemma EraseNothing(h: map<State, State?>)
      ensures Erase(h, {}) == h
    {
    }

    lemma EraseTwice(h: map<State, State?>, y: set<State>, z: set<State>)
      ensures Erase(Erase(h, y), z) == Erase(h, y + z)
    {
    }

    lemma EraseFine(h: map<State, State?>, z: set<State>)
      requires Fine(h)
      ensures Fine(Erase(h, z))
    {
    }

    ghost predicate Designates(s: State, h: State?) {
      h != null ==> h in states && s.path < h.path
    }

    ghost predicate PendingFine()
      reads this`myPendingState, this`myPendingInit
    {
      myPendingState != null ==> myPendingState in states && (myPendingState == root ==> myPendingInit.Default?)
    }

    /** All boxes. */
    ghost function Slots(): map<State, Slot>
      reads states`myBox, states`myBoxPlace
    {
      map s | s in states :: s.Here()
    }

    /** The open states are those below Root on the way to `a`, each with its box. */
    ghost predicate Active(a: State, l: seq<Call>, b: map<State, Slot>) {
      Open(l).Nested? &&
      var f := Open(l).frames;
      |f| == |a.path| - 1 &&
      forall i :: 0 <= i < |f| ==> f[i].s == a.path[i + 1] && f[i].s in b && b[f[i].s].box == Some(f[i].box)
    }

    /**
     * Boxes of active states are live. Of the others, only persistent and empty boxes are, from the first entry on,
     * and a box supplied for the top state before the start. A live box leaves no cached memory behind.
     */
    ghost predicate Boxed(s: State, active: bool, l: seq<Call>, b: Slot) {
      (b.place ==> b.box == None || b.box == Some(EmptyBox)) &&
      (b.box == (if active || !s.ownBox || s.persistent then LastBox(l, s) else None) || Supplied(s, l, b))
    }

    ghost predicate Supplied(s: State, l: seq<Call>, b: Slot) {
      LastBox(l, s) == None && s == top && s.ownBox && b.box == Some(Own(0)) && 0 !in Serials(l)
    }

    ghost predicate Boxes(a: State, l: seq<Call>, b: map<State, Slot>) {
      forall s :: s in b ==> Boxed(s, s in a.path, l, b[s])
    }

    /** Calls and boxes fit the situation that `a` is the innermost active state. */
    ghost predicate Sound(a: State, l: seq<Call>, b: map<State, Slot>, n: nat) {
      a in states && b.Keys == states && Active(a, l, b) && Boxes(a, l, b) && BoxesKept(l) &&
      1 <= n && forall k :: k in Serials(l) ==> k < n
    }

    ghost predicate Consistent(a: State)
      reads this`calls, this`constructed, this`myPendingState, this`myPendingInit, states
    {
      Sound(a, calls, Slots(), constructed) && HistoryFine() && PendingFine()
    }

    /** A transition is on, so that user code can ask for nothing new. */
    ghost predicate Busy()
      reads this`myPendingState, this`myPendingEvent
    {
      myPendingState != null && myPendingEvent != NoEvent
    }

    ghost function Want(): Wanted
      reads this`myPendingState, this`myPendingInit
    {
      if myPendingState == null then Nothing else Going(myPendingState, myPendingInit)
    }

    ghost function Pendings(): (State?, Initializer, PendingEvent)
      reads this`myPendingState, this`myPendingInit, this`myPendingEvent
    {
      (myPendingState, myPendingInit, myPendingEvent)
    }

    /** Between two events: nothing is pending. */
    ghost predicate Valid()
      reads this, states
    {
      myPendingState == null && myPendingEvent == NoEvent &&
      Declared() && myCurrentState != null && Consistent(myCurrentState) && Traced()
    }

    // ---------- user code ----------

    method SetPendingState(s: State, init: Initializer) returns (ok: bool)
      requires s in states && (s == root ==> init.Default?) && PendingFine()
      modifies this`myPendingState, this`myPendingInit
      ensures Histories() == old(Histories()) && Slots() == old(Slots())
      ensures ok == (old(myPendingState) == null || (old(myPendingState) == s && SameObject(old(myPendingInit), init)))
      ensures if ok then myPendingState == s && myPendingInit == init
              else myPendingState == old(myPendingState) && myPendingInit == old(myPendingInit)
    {
      ok := myPendingState == null || (myPendingState == s && SameObject(myPendingInit, init));
      if ok {
        myPendingState, myPendingInit := s, init;
      }
    }

    method SetPendingEvent(e: Event) returns (ok: bool)
      modifies this`myPendingEvent
      ensures ok == (old(myPendingEvent) == NoEvent)
      ensures myPendingEvent == if ok then Pending(e) else old(myPendingEvent)
    {
      ok := myPendingEvent == NoEvent;
      if ok {
        myPendingEvent := Pending(e);
      }
    }

    /** An alias for the history of a state stands for that history, if there is one. */
    method Adapt(s: State, init: Initializer) returns (r: State)
      requires Declared() && s in states && s != root && HistoryFine()
      ensures r in states && r != root && s.path <= r.path
      ensures r == Resolved(s, init, Histories())
    {
      r := if init.Adapting? && s.myHistory != null then s.myHistory else s;
      assert Histories()[s] == s.myHistory;
      PathEnds(states, root, s);
      PathEnds(states, root, r);
    }

    method SetHistory(s: State, history: State?)
      requires Declared() && s in states
      modifies s`myHistory
      ensures Histories() == old(Histories())[s := history]
    {
      s.myHistory := history;
    }

    /** Forgets the history of the state and of all its substates. */
    method ClearDeep(target: State)
      requires Declared() && target in states
      modifies states`myHistory
      ensures Histories() == Erase(old(Histories()), Below(target))
    {
      forall s | s in states ensures IsChild(s, target, states, root) <==> target.path <= s.path {
        IsChildIsPrefix(s, target, states, root);
      }
      forall s | s in states && IsChild(s, target, states, root) {
        s.myHistory := null;
      }
    }

    ghost function Below(t: State): set<State> {
      set s | s in states && t.path <= s.path
    }

    ghost function Wiped(a: Action): set<State> {
      match a
      case ClearHistory(t) => {t}
      case ClearHistoryDeep(t) => Below(t)
      case _ => {}
    }

    ghost function WipedBy(actions: seq<Action>): set<State> {
      if actions == [] then {} else WipedBy(actions[..|actions| - 1]) + Wiped(actions[|actions| - 1])
    }

    /** The states whose history user code has cleared in the calls from number `start` on. */
    ghost function Forgotten(cs: seq<Call>, start: nat): set<State> {
      if |cs| <= start then {}
      else
        var before := cs[..|cs| - 1];
        Forgotten(before, start) + WipedBy(behaviour(cs[|cs| - 1], before))
    }

    lemma {:induction false} ForgottenSplit(a: seq<Call>, b: seq<Call>, start: nat)
      requires start <= |a|
      ensures Forgotten(a + b, start) == Forgotten(a, start) + Forgotten(a + b, |a|)
    {
      if b == [] {
        assert a + b == a;
      } else {
        ForgottenSplit(a, b[..|b| - 1], start);
        assert (a + b)[..|a + b| - 1] == a + b[..|b| - 1];
      }
    }

    method ClearOne(s: State)
      requires Declared() && s in states
      modifies states`myHistory
      ensures Histories() == Erase(old(Histories()), {s})
    {
      SetHistory(s, null);
    }

    // ---------- what user code asks for ----------

    /** An alias for the history of a state stands for that history, if there is one. */
    ghost function Resolved(s: State, init: Initializer, h: map<State, State?>): State {
      if init.Adapting? && s in h && h[s] != null then h[s] else s
    }

    /** The transition that is pending after the requests: that of the last one for a transition, if there is one. */
    ghost function AskedFor(actions: seq<Action>, w: Wanted, h: map<State, State?>): Wanted {
      if actions == [] then w
      else
        var before, a := actions[..|actions| - 1], actions[|actions| - 1];
        if a.SetState? then Going(Resolved(a.target, a.init, Erase(h, WipedBy(before))), a.init)
        else AskedFor(before, w, h)
    }

    ghost function EventAfter(actions: seq<Action>, e: PendingEvent): PendingEvent {
      if actions == [] then e
      else
        var a := actions[|actions| - 1];
        if a.Dispatch? then Pending(a.event) else EventAfter(actions[..|actions| - 1], e)
    }

    ghost predicate NamesState(a: Action) {
      a.Dispatch? || (a.target in states && a.target != root)
    }

    /** The same transition is asked for, by way of an initializer that is one object for all. */
    ghost predicate Repeats(a: Action, target: State, init: Initializer)
      requires a.SetState?
    {
      a.target == target && SameObject(init, a.init)
    }

    /**
     * The rules for the requests of one call, while the transition `w` is pending and an event may be dispatched or
     * not: a pending transition may be asked for again, another one not; no second event; no unknown states.
     */
    ghost predicate Keeps(actions: seq<Action>, w: Wanted, free: bool) {
      (forall a :: a in actions ==> NamesState(a)) &&
      (forall a :: a in actions && a.Dispatch? ==> free) &&
      (forall a :: a in actions && a.SetState? && w.Going? ==> Repeats(a, w.next, w.init)) &&
      (forall i, j :: 0 <= i < j < |actions| && actions[i].Dispatch? ==> !actions[j].Dispatch?) &&
      (forall i, j :: 0 <= i < j < |actions| && actions[i].SetState? && actions[j].SetState? ==>
        Repeats(actions[j], actions[i].target, actions[i].init))
    }

    /** For instance, a transition may be asked for twice only by the default or the history initializer. */
    lemma AskedTwice(s: State, i: Initializer, j: Initializer, free: bool)
      ensures Keeps([SetState(s, i), SetState(s, j)], Nothing, free) <==>
              s in states && s != root && i == j && (i.Default? || i.History?)
    {
      var two := [SetState(s, i), SetState(s, j)];
      assert two[0] in two && two[1] in two;
      assert Repeats(two[1], s, i) <==> i == j && (i.Default? || i.History?);
    }

    /** One request: what the assertions of the engine check. */
    ghost predicate Allowed(a: Action, w: Wanted, e: PendingEvent, h: map<State, State?>) {
      NamesState(a) && (a.Dispatch? ==> e == NoEvent) &&
      (a.SetState? && w.Going? ==> w.next == Resolved(a.target, a.init, h) && SameObject(w.init, a.init))
    }

    /** No request for a transition, or the last one. */
    lemma {:induction false} LastRequest(actions: seq<Action>, w: Wanted, h: map<State, State?>) returns (k: nat)
      ensures if forall a :: a in actions ==> !a.SetState? then AskedFor(actions, w, h) == w
        else
          k < |actions| && actions[k].SetState? && (forall j :: k < j < |actions| ==> !actions[j].SetState?) &&
          AskedFor(actions, w, h) ==
            Going(Resolved(actions[k].target, actions[k].init, Erase(h, WipedBy(actions[..k]))), actions[k].init)
    {
      hide Erase, Resolved, WipedBy;
      k := 0;
      if actions != [] {
        var n := |actions| - 1;
        var before := actions[..n];
        if actions[n].SetState? {
          k := n;
        } else {
          k := LastRequest(before, w, h);
          if exists a :: a in before && a.SetState? {
            assert before[..k] == actions[..k];
          } else {
            forall a | a in actions ensures !a.SetState? {
              assert a == actions[n] || a in before;
            }
          }
        }
      }
    }

    ghost predicate NoneDispatched(actions: seq<Action>) {
      forall a :: a in actions ==> !a.Dispatch?
    }

    lemma {:induction false} LastEvent(actions: seq<Action>, e: PendingEvent)
      ensures if NoneDispatched(actions) then EventAfter(actions, e) == e else EventAfter(actions, e).Pending?
    {
      if actions != [] {
        var before := actions[..|actions| - 1];
        LastEvent(before, e);
        assert actions == before + [actions[|actions| - 1]];
      }
    }

    /** The rules for all requests of a call are those that the assertions check, one after the other. */
    lemma KeepsNext(actions: seq<Action>, w: Wanted, e: PendingEvent, h: map<State, State?>, a: Action)
      requires Keeps(actions, w, e == NoEvent)
      ensures Keeps(actions + [a], w, e == NoEvent) <==>
        Allowed(a, AskedFor(actions, w, h), EventAfter(actions, e), Erase(h, WipedBy(actions)))
      ensures AskedFor(actions + [a], w, h) ==
        if a.SetState? then Going(Resolved(a.target, a.init, Erase(h, WipedBy(actions))), a.init)
        else AskedFor(actions, w, h)
      ensures EventAfter(actions + [a], e) == if a.Dispatch? then Pending(a.event) else EventAfter(actions, e)
      ensures WipedBy(actions + [a]) == WipedBy(actions) + Wiped(a)
    {
      hide Erase, NamesState, Resolved, Keeps;
      assert (actions + [a])[..|actions|] == actions;
      LastEvent(actions, e);
      KeepsOneMore(actions, w, e == NoEvent, a);
      if a.SetState? {
        RequestFits(actions, w, e == NoEvent, h, a);
      }
    }

    /** A request for a transition fits the one pending and those before. */
    ghost predicate Fits(actions: seq<Action>, w: Wanted, a: Action) {
      a.SetState? ==>
        (w.Going? ==> Repeats(a, w.next, w.init)) &&
        forall b :: b in actions && b.SetState? ==> Repeats(a, b.target, b.init)
    }

    lemma KeepsOneMore(actions: seq<Action>, w: Wanted, free: bool, a: Action)
      requires Keeps(actions, w, free)
      ensures Keeps(actions + [a], w, free) <==>
        NamesState(a) && Fits(actions, w, a) && (a.Dispatch? ==> free && NoneDispatched(actions))
    {
      hide NamesState, Repeats;
      var all, n := actions + [a], |actions|;
      assert all[n] == a && a in all && forall i :: 0 <= i < n ==> all[i] == actions[i] && actions[i] in all;
    }

    lemma RequestFits(actions: seq<Action>, w: Wanted, free: bool, h: map<State, State?>, a: Action)
      requires Keeps(actions, w, free) && a.SetState?
      ensures var x := AskedFor(actions, w, h);
        Fits(actions, w, a) <==>
          (x.Going? ==> x.next == Resolved(a.target, a.init, Erase(h, WipedBy(actions))) && SameObject(x.init, a.init))
    {
      hide Erase, WipedBy, NamesState;
      var k := LastRequest(actions, w, h);
      if b :| b in actions && b.SetState? {
        forall b | b in actions && b.SetState? ensures b == actions[k] || Repeats(actions[k], b.target, b.init) {
          var i :| 0 <= i < |actions| && actions[i] == b;
        }
      }
    }

    /** One request of user code; false if it breaks the engine's rules or names no state of this machine. */
    method Perform(a: Action) returns (ok: bool)
      requires Declared() && HistoryFine() && PendingFine()
      modifies this`myPendingState, this`myPendingInit, this`myPendingEvent, states`myHistory
      ensures PendingFine()
      ensures ok <==> Allowed(a, old(Want()), old(myPendingEvent), old(Histories()))
      ensures Histories() == if ok then Erase(old(Histories()), Wiped(a)) else old(Histories())
      ensures Want() == if ok && a.SetState? then Going(Resolved(a.target, a.init, old(Histories())), a.init)
        else old(Want())
      ensures myPendingEvent == if ok && a.Dispatch? then Pending(a.event) else old(myPendingEvent)
      ensures myPendingState != old(myPendingState) ==> myPendingState != root
    {
      ghost var h := Histories();
      EraseNothing(h);
      ok := a.Dispatch? || (a.target in states && a.target != root);
      if ok {
        match a
        case SetState(s, init) =>
          var target := Adapt(s, init);
          ok := SetPendingState(target, init);
          assert Histories() == h;
        case Dispatch(e) =>
          ok := SetPendingEvent(e);
          assert Histories() == h;
        case ClearHistory(s) => ClearOne(s);
        case ClearHistoryDeep(s) => ClearDeep(s);
      }
    }

    method PerformAll(actions: seq<Action>) returns (ok: bool)
      requires Declared() && HistoryFine() && PendingFine()
      modifies this`myPendingState, this`myPendingInit, this`myPendingEvent, states`myHistory
      ensures HistoryFine() && PendingFine() && (Asking() ==> old(Asking()) || myPendingState != root)
      ensures ok <==> Keeps(actions, old(Want()), old(myPendingEvent) == NoEvent)
      ensures ok ==> Want() == AskedFor(actions, old(Want()), old(Histories()))
      ensures ok ==> myPendingEvent == EventAfter(actions, old(myPendingEvent))
      ensures ok ==> Histories() == Erase(old(Histories()), WipedBy(actions))
      ensures old(Asking()) ==> Want() == old(Want())
      ensures old(myPendingEvent) != NoEvent ==> myPendingEvent == old(myPendingEvent)
      ensures old(myPendingEvent) == NoEvent ==> myPendingEvent != Dummy
    {
      ok := true;
      var i := 0;
      ghost var w, e, h := Want(), myPendingEvent, Histories();
      EraseNothing(h);
      hide Keeps, AskedFor, EventAfter, WipedBy, Erase, Fine, Rooted, Allowed;
      NoRequests(w, e, h);
      while i < |actions| && ok
        invariant i <= |actions| && HistoryFine() && PendingFine()
        invariant Asking() ==> w.Going? || myPendingState != root
        invariant ok ==> Keeps(actions[..i], w, e == NoEvent)
        invariant !ok ==> !Keeps(actions, w, e == NoEvent)
        invariant ok ==> Want() == AskedFor(actions[..i], w, h) && myPendingEvent == EventAfter(actions[..i], e)
        invariant ok ==> Histories() == Erase(h, WipedBy(actions[..i]))
        invariant w.Going? ==> Want() == w
        invariant e != NoEvent ==> myPendingEvent == e
        invariant e == NoEvent ==> myPendingEvent != Dummy
        decreases |actions| - i
      {
        EraseFine(Histories(), Wiped(actions[i]));
        EraseTwice(h, WipedBy(actions[..i]), Wiped(actions[i]));
        KeepsNext(actions[..i], w, e, h, actions[i]);
        KeepsBefore(actions, w, e == NoEvent, i + 1);
        assert actions[..i + 1] == actions[..i] + [actions[i]];
        AllowedKeeps(actions[i], Want(), myPendingEvent, Histories());
        ok := Perform(actions[i]);
        i := i + 1;
      }
      assert ok ==> actions[..i] == actions;
    }

    ghost predicate Asking()
      reads this`myPendingState
    {
      myPendingState != null
    }

    lemma NoRequests(w: Wanted, e: PendingEvent, h: map<State, State?>)
      ensures Keeps([], w, e == NoEvent) && AskedFor([], w, h) == w && EventAfter([], e) == e && WipedBy([]) == {}
    {
    }

    lemma KeepsBefore(actions: seq<Action>, w: Wanted, free: bool, i: nat)
      requires i <= |actions|
      ensures Keeps(actions, w, free) ==> Keeps(actions[..i], w, free)
    {
      hide Repeats, NamesState;
    }

    /** What is pending stays pending. */
    lemma AllowedKeeps(a: Action, w: Wanted, e: PendingEvent, h: map<State, State?>)
      ensures Allowed(a, w, e, h) && a.SetState? && w.Going? ==> Going(Resolved(a.target, a.init, h), a.init) == w
      ensures Allowed(a, w, e, h) && a.Dispatch? ==> e == NoEvent
    {
    }

    /**
     * User code is called and its requests are carried out one after the other. No assertion fails if and only if they
     * keep the rules; then the transition pending is the last one asked for, or still the one before.
     */
    method CallUser(c: Call) returns (ok: bool)
      requires Declared() && HistoryFine() && PendingFine()
      modifies this`calls, this`myPendingState, this`myPendingInit, this`myPendingEvent, states`myHistory
      ensures calls == old(calls) + [c] && HistoryFine() && PendingFine() && Slots() == old(Slots())
      ensures Asking() ==> old(Asking()) || myPendingState != root
      ensures ok <==> Keeps(behaviour(c, old(calls)), old(Want()), old(myPendingEvent) == NoEvent)
      ensures ok ==> Want() == AskedFor(behaviour(c, old(calls)), old(Want()), old(Histories()))
      ensures ok ==> myPendingEvent == EventAfter(behaviour(c, old(calls)), old(myPendingEvent))
      ensures ok ==> Histories() == Erase(old(Histories()), Forgotten(calls, |old(calls)|))
      ensures old(Asking()) ==> Want() == old(Want())
      ensures old(myPendingEvent) != NoEvent ==> myPendingEvent == old(myPendingEvent)
      ensures old(myPendingEvent) == NoEvent ==> myPendingEvent != Dummy
    {
      hide Keeps, AskedFor, EventAfter, Fine, Rooted, Erase;
      ghost var before := calls;
      var actions := behaviour(c, calls);
      calls := calls + [c];
      ok := PerformAll(actions);
      assert calls[..|before|] == before && Forgotten(before, |before|) == {};
      assert Forgotten(calls, |before|) == WipedBy(actions);
    }

    // ---------- user code that keeps the rules ----------

    /**
     * Rules that do not depend on what is pending: entries and exits only clear histories; an init asks for at most one
     * transition, to a proper substate; an event handler for at most one transition and one event.
     */
    ghost predicate Polite(c: Call, actions: seq<Action>) {
      (forall a :: a in actions ==> NamesState(a)) &&
      (c.Entered? || c.Exited? ==> forall a :: a in actions ==> !a.SetState?) &&
      (!c.Handled? ==> forall a :: a in actions ==> !a.Dispatch?) &&
      (c.Initialized? ==> forall a :: a in actions && a.SetState? ==> c.s.path < a.target.path) &&
      (forall i, j :: 0 <= i < j < |actions| ==> !(actions[i].Dispatch? && actions[j].Dispatch?)) &&
      (forall i, j :: 0 <= i < j < |actions| ==> !(actions[i].SetState? && actions[j].SetState?))
    }

    /** The last call has been answered otherwise. */
    ghost predicate Impolite(l: seq<Call>) {
      l != [] && !Polite(l[|l| - 1], behaviour(l[|l| - 1], l[..|l| - 1]))
    }

    /** The last call has broken the rules. */
    ghost predicate Broken(l: seq<Call>, w: Wanted, free: bool) {
      l != [] && !Keeps(behaviour(l[|l| - 1], l[..|l| - 1]), w, free)
    }

    /** All calls from number `start` on keep the rules. */
    ghost predicate Obeyed(l: seq<Call>, start: nat, w: Wanted, free: bool) {
      forall i :: start <= i < |l| ==> Keeps(behaviour(l[i], l[..i]), w, free)
    }

    /** A call from number `n` on, the last one, has failed an assertion, and was not polite. */
    ghost predicate Failed(l: seq<Call>, n: nat, w: Wanted, free: bool) {
      n < |l| && Broken(l, w, free) && Impolite(l)
    }

    /** How it went since call number `n`. */
    ghost predicate Went(ok: bool, l: seq<Call>, n: nat, w: Wanted, free: bool) {
      if ok then Obeyed(l, n, w, free) else Failed(l, n, w, free)
    }

    lemma OneWent(l: seq<Call>, c: Call, w: Wanted, free: bool)
      requires (c.Handled? ==> free) && (c.Initialized? || c.Handled? ==> w == Nothing)
      ensures Went(Keeps(behaviour(c, l), w, free), l + [c], |l|, w, free)
    {
      hide Polite, Keeps;
      assert (l + [c])[..|l|] == l;
      if Polite(c, behaviour(c, l)) {
        PoliteKeeps(c, behaviour(c, l), w, free);
      }
    }

    lemma WentOn(ok: bool, l: seq<Call>, a: seq<Call>, b: seq<Call>, w: Wanted, free: bool)
      requires Obeyed(l + a, |l|, w, free) && Went(ok, l + a + b, |l + a|, w, free)
      ensures Went(ok, l + a + b, |l|, w, free) && l + a + b == l + (a + b)
    {
      hide Keeps, Broken, Impolite;
      if ok {
        forall i | |l| <= i < |l + a + b|
          ensures Keeps(behaviour((l + a + b)[i], (l + a + b)[..i]), w, free) {
          if i < |l + a| {
            assert (l + a + b)[..i] == (l + a)[..i] && (l + a + b)[i] == (l + a)[i];
          }
        }
      }
    }

    lemma JoinedWent(ok: bool, l: seq<Call>, a: seq<Call>, b: seq<Call>, w: Wanted, free: bool)
      requires Went(true, l + a, |l|, w, free) && Went(ok, l + a + b, |l + a|, w, free)
      ensures Went(ok, l + (a + b), |l|, w, free) && Went(ok, l + a + b, |l|, w, free)
    {
      hide Obeyed, Failed;
      WentOn(ok, l, a, b, w, free);
    }

    lemma WentNowhere(l: seq<Call>, w: Wanted, free: bool)
      ensures Went(true, l, |l|, w, free)
    {
    }

    /** Polite user code keeps the rules in each situation in which it is called. */
    lemma PoliteKeeps(c: Call, actions: seq<Action>, w: Wanted, free: bool)
      requires Polite(c, actions) && (c.Handled? ==> free) && (c.Initialized? || c.Handled? ==> w == Nothing)
      ensures Keeps(actions, w, free)
    {
      hide NamesState, Repeats;
    }

    // ---------- history ----------

    /** Does a superstate declare a history strategy? */
    predicate SuperHasHistory(s: State)
      requires Rooted(states, root) && s in states
      decreases |s.path|
    {
      assert Placed(states, root, s);
      s.parent != null && (s.parent.mode != NoHistory || SuperHasHistory(s.parent))
    }

    lemma {:induction false} NoSuperHasHistory(s: State, a: State)
      requires Rooted(states, root) && s in states && a in states && !SuperHasHistory(s) && a.path < s.path
      ensures a.mode == NoHistory
      decreases |s.path|
    {
      PathEnds(states, root, s);
      PathEnds(states, root, a);
      assert a.path <= s.path[..|s.path| - 1];
      if a.path == s.parent.path {
        PathEnds(states, root, s.parent);
      } else {
        NoSuperHasHistory(s.parent, a);
      }
    }

    /** The histories after `deep` has been left, as far as the superstates of `s` are concerned. */
    ghost function Remember(h: map<State, State?>, s: State, deep: State): map<State, State?>
      requires s.path <= deep.path
    {
      map a | a in h :: if !(a.path < s.path) then h[a]
        else match a.mode case NoHistory => h[a] case Shallow => deep.path[|a.path|] case Deep => deep
    }

    ghost function Erase(h: map<State, State?>, z: set<State>): map<State, State?> {
      map a | a in h :: if a in z then null else h[a]
    }

    ghost function Strategy(a: State, deep: State, h: State?): State?
      requires |a.path| < |deep.path|
    {
      match a.mode case NoHistory => h case Shallow => deep.path[|a.path|] case Deep => deep
    }

    lemma RememberStep(h: map<State, State?>, s: State, deep: State)
      requires Declared() && s in states && deep in states && s.path <= deep.path && s != root && h.Keys == states
      ensures s.parent != null && s.parent in states && s.parent.path <= deep.path && |s.parent.path| < |deep.path|
      ensures Remember(h, s, deep) == Remember(h[s.parent := Strategy(s.parent, deep, h[s.parent])], s.parent, deep)
      ensures s == deep.path[|s.parent.path|]
    {
      PathEnds(states, root, s);
      PathEnds(states, root, s.parent);
      forall a | a in states ensures a.path < s.path <==> a.path < s.parent.path || a == s.parent {
        PathEnds(states, root, a);
        if a.path < s.path {
          assert a.path <= s.path[..|s.path| - 1];
        }
      }
    }

    lemma NothingToRemember(h: map<State, State?>, s: State, deep: State)
      requires Declared() && s in states && deep in states && s.path <= deep.path && h.Keys == states &&
        !SuperHasHistory(s)
      ensures Remember(h, s, deep) == h
    {
      forall a | a in states && a.path < s.path ensures a.mode == NoHistory {
        NoSuperHasHistory(s, a);
      }
    }

    /** Leaving `deep`: the superstates of `s` with a history strategy take note, innermost first. */
    method SetHistorySuper(s: State, deep: State)
      requires Declared() && s in states && deep in states && s.path <= deep.path
      modifies states`myHistory
      ensures Histories() == Remember(old(Histories()), s, deep) && Slots() == old(Slots())
      decreases |s.path|, 0
    {
      PathEnds(states, root, s);
      if s.parent != null {
        RememberStep(Histories(), s, deep);
        SaveHistory(s.parent, s, deep);
      } else {
        NothingToRemember(Histories(), s, deep);
      }
    }

    /** The history strategy of `s`; a state without one leaves it to its superstates. */
    method SaveHistory(s: State, shallow: State, deep: State)
      requires Declared() && s in states && deep in states && s.path < deep.path && shallow == deep.path[|s.path|]
      modifies states`myHistory
      ensures Histories() == Remember(old(Histories()[s := Strategy(s, deep, s.myHistory)]), s, deep) &&
        Slots() == old(Slots())
      decreases |s.path|, 1
    {
      if s.mode == Deep {
        SetHistory(s, deep);
      } else if s.mode == Shallow {
        SetHistory(s, shallow);
      }
      assert Histories() == old(Histories()[s := Strategy(s, deep, s.myHistory)]);
      if SuperHasHistory(s) {
        SetHistorySuper(s, deep);
      } else {
        NothingToRemember(Histories(), s, deep);
      }
    }

    // ---------- entries and exits ----------

    lemma NotAboveItself(s: State)
      requires Declared() && s in states && s != root
      ensures s.parent != null && s.parent in states && s !in s.parent.path && s in s.path
      ensures forall u :: u != s ==> (u in s.path <==> u in s.parent.path)
    {
      PathEnds(states, root, s);
      assert s.path == s.parent.path + [s];
      if s in s.parent.path {
        var i :| 0 <= i < |s.parent.path| && s.parent.path[i] == s;
        PathInTree(states, root, s.parent, i);
      }
    }

    lemma EnterRightBox(s: State, l: seq<Call>, b: Slot, n: nat)
      requires BoxesKept(l) && 1 <= n && (forall k :: k in Serials(l) ==> k < n) && Boxed(s, false, l, b)
      ensures var slot := Created(s, b, n);
        slot.box.Some? && RightBox(l, s, slot.box.value) &&
        (slot.box.value.Own? ==> slot.box.value.serial < n + 1 && !slot.place) &&
        (s != top && slot.box.value.Own? && slot.box.value.serial == 0 ==> 0 in Serials(l))
    {
      if LastBox(l, s).Some? {
        LastBoxKnown(l, s);
      }
    }

    lemma EnterSound(s: State, l: seq<Call>, b: map<State, Slot>, n: nat)
      requires Declared() && s in states && s != root && s.parent != null && Sound(s.parent, l, b, n)
      ensures var slot := Created(s, b[s], n);
        slot.box.Some? && Sound(s, l + [Entered(s, slot.box.value)], b[s := slot], n + 1)
    {
      NotAboveItself(s);
      PathEnds(states, root, s);
      PathEnds(states, root, s.parent);
      EnterRightBox(s, l, b[s], n);
      var slot := Created(s, b[s], n);
      var c := Entered(s, slot.box.value);
      Logged(l, c);
      EnterActive(s, l, b, slot);
      forall u | u in states && u != s ensures Boxed(u, u in s.path, l + [c], b[u]) {
        assert Boxed(u, u in s.parent.path, l, b[u]);
      }
    }

    lemma EnterActive(s: State, l: seq<Call>, b: map<State, Slot>, slot: Slot)
      requires Declared() && s in states && s != root && s.parent != null && slot.box.Some?
      requires Active(s.parent, l, b)
      ensures Active(s, l + [Entered(s, slot.box.value)], b[s := slot])
    {
      NotAboveItself(s);
      PathEnds(states, root, s);
      PathEnds(states, root, s.parent);
      Logged(l, Entered(s, slot.box.value));
      var f := Open(l).frames;
      if f == [] {
        assert s.parent == root;
      }
    }

    lemma LeaveActive(s: State, l: seq<Call>, b: map<State, Slot>, slot: Slot)
      requires Declared() && s in states && s != root && Active(s, l, b)
      ensures s.parent != null && s in b && b[s].box.Some?
      ensures Active(s.parent, l + [Exited(s, b[s].box.value)], b[s := slot])
    {
      NotAboveItself(s);
      PathEnds(states, root, s);
      var f := Open(l).frames;
      assert f[|f| - 1].s == s;
      Logged(l, Exited(s, b[s].box.value));
    }

    lemma LeaveSound(s: State, l: seq<Call>, b: map<State, Slot>, n: nat)
      requires Declared() && s != root && Sound(s, l, b, n)
      ensures s.parent != null && b[s].box.Some? && (b[s].box.value.Own? ==> !b[s].place)
      ensures Sound(s.parent, l + [Exited(s, b[s].box.value)], b[s := Destroyed(s, b[s])], n)
    {
      NotAboveItself(s);
      LeaveActive(s, l, b, Destroyed(s, b[s]));
      var c := Exited(s, b[s].box.value);
      Logged(l, c);
      if LastBox(l, s).Some? {
        LastBoxKnown(l, s);
      }
      forall u | u in states && u != s ensures Boxed(u, u in s.parent.path, l + [c], b[u]) {
        assert Boxed(u, u in s.path, l, b[u]);
      }
    }

    lemma StaySound(s: State, l: seq<Call>, b: map<State, Slot>, n: nat, c: Call)
      requires Declared() && s != root && Sound(s, l, b, n) && (c.Initialized? || c.Handled?) && c.s == s
      ensures Sound(s, l + [c], b, n)
    {
      PathEnds(states, root, s);
      Logged(l, c);
    }

    /** Creates the box of `s`, then calls its entry action. */
    method EnterState(s: State) returns (ok: bool, ghost made: seq<Call>)
      requires Declared() && s in states && s != root && s.parent != null && Consistent(s.parent) && Busy()
      modifies this`calls, this`constructed, this`myPendingState, this`myPendingInit, this`myPendingEvent, states
      ensures Consistent(s) && Pendings() == old(Pendings())
      ensures calls == old(calls) + made && AreEntries(made, [s])
      ensures Went(ok, calls, |old(calls)|, old(Want()), false)
      ensures ok ==> Histories() == Erase(old(Histories()), Forgotten(calls, |old(calls)|))
    {
      hide Rooted, Sound, Fine, Forgotten, Erase, Keeps, Went, AskedFor, EventAfter;
      EnterSound(s, calls, Slots(), constructed);
      CreateBox(s);
      made := [Entered(s, s.myBox.value)];
      OneWent(calls, made[0], Want(), false);
      ok := CallUser(Entered(s, s.myBox.value));
    }

    /** Calls the exit action of `s`, then deletes its box. */
    method LeaveState(s: State) returns (ok: bool, ghost made: seq<Call>)
      requires Declared() && s != root && Consistent(s) && Busy()
      modifies this`calls, this`myPendingState, this`myPendingInit, this`myPendingEvent, states
      ensures s.parent != null && Consistent(s.parent) && Pendings() == old(Pendings())
      ensures calls == old(calls) + made && AreExits(made, [s])
      ensures Went(ok, calls, |old(calls)|, old(Want()), false)
      ensures ok ==> Histories() == Erase(old(Histories()), Forgotten(calls, |old(calls)|))
    {
      hide Rooted, Sound, Fine, Forgotten, Erase, Keeps, Went, AskedFor, EventAfter;
      LeaveSound(s, calls, Slots(), constructed);
      made := [Exited(s, s.myBox.value)];
      OneWent(calls, made[0], Want(), false);
      ok := CallUser(Exited(s, s.myBox.value));
      DeleteBox(s);
    }

    method CreateBox(s: State)
      requires s in states
      modifies this`constructed, s`myBox, s`myBoxPlace
      ensures Slots() == old(Slots()[s := Created(s, Slots()[s], constructed)]) && constructed == old(constructed) + 1
      ensures Histories() == old(Histories())
    {
      s.CreateBox(constructed);
      constructed := constructed + 1;
    }

    method DeleteBox(s: State)
      requires s in states && s.myBox.Some? && (s.myBox.value.Own? ==> !s.myBoxPlace)
      modifies s`myBox, s`myBoxPlace
      ensures Slots() == old(Slots()[s := Destroyed(s, Slots()[s])])
      ensures Histories() == old(Histories())
    {
      s.DeleteBox();
    }

    lemma ErasedInTurn(h: map<State, State?>, l: seq<Call>, a: seq<Call>, b: seq<Call>)
      ensures l + a + b == l + (a + b)
      ensures Erase(Erase(h, Forgotten(l + a, |l|)), Forgotten(l + a + b, |l + a|)) ==
        Erase(h, Forgotten(l + (a + b), |l|))
    {
      assert l + a + b == l + (a + b);
      ForgottenSplit(l + a, b, |l|);
      EraseTwice(h, Forgotten(l + a, |l|), Forgotten(l + a + b, |l + a|));
    }

    /** The first `k` states of the path, and no others, are `previous` or its superstates. */
    ghost predicate KeptAt(path: seq<State>, previous: State, k: nat) {
      forall i :: 0 <= i < |path| ==> (i < k <==> path[i].path <= previous.path)
    }

    lemma EntryStep(s: State, previous: State, first: bool, k: nat)
      requires Declared() && s in states && previous in states && s != root && 1 <= k <= |s.path|
      requires if first then k < |s.path| && KeptAt(s.path[..|s.path| - 1], previous, k)
        else KeptAt(s.path, previous, k)
      ensures s.parent != null && s.parent in states
      ensures if first || !IsChild(previous, s, states, root)
        then k <= |s.parent.path| && KeptAt(s.parent.path, previous, k) && s.path[k - 1] == s.parent.path[k - 1] &&
             s.path[k..] == s.parent.path[k..] + [s]
        else k == |s.path| && s.path[k - 1] == s && s.path[k..] == []
    {
      PathEnds(states, root, s);
      IsChildIsPrefix(previous, s, states, root);
      assert s.path == s.parent.path + [s];
      if !first && s.path <= previous.path {
        assert s.path[|s.path| - 1] == s;
      }
    }

    /** Enters the states from number `k` on, outermost first. */
    method Entry(s: State, previous: State, first: bool, ghost k: nat)
      returns (ok: bool, ghost made: seq<Call>, ghost now: State)
      requires Declared() && s in states && previous in states && 1 <= k <= |s.path| && Consistent(s.path[k - 1]) &&
        Busy()
      requires if first && s != root then k < |s.path| && KeptAt(s.path[..|s.path| - 1], previous, k)
        else KeptAt(s.path, previous, k)
      modifies this`calls, this`constructed, this`myPendingState, this`myPendingInit, this`myPendingEvent, states
      ensures Consistent(now) && Pendings() == old(Pendings()) && calls == old(calls) + made
      ensures ok ==> now == s && AreEntries(made, s.path[k..])
      ensures Went(ok, calls, |old(calls)|, old(Want()), false)
      ensures ok ==> Histories() == Erase(old(Histories()), Forgotten(calls, |old(calls)|))
      decreases |s.path|
    {
      ok, made, now := true, [], s.path[k - 1];
      EraseNothing(Histories());
      WentNowhere(calls, Want(), false);
      hide Went;
      PathEnds(states, root, s);
      if s.parent == null {
        return;
      }
      EntryStep(s, previous, first, k);
      if first || !IsChild(previous, s, states, root) {
        ok, made, now := Entry(s.parent, previous, false, k);
        if ok {
          ghost var more;
          ok, more := EnterState(s);
          JoinedWent(ok, old(calls), made, more, Want(), false);
          ErasedInTurn(old(Histories()), old(calls), made, more);
          EntriesJoin(made, s.parent.path[k..], more, s);
          made, now := made + more, s;
        }
      }
    }

    /** The states of the path that stay active are the proper superstates of `next`, `k` of them with Root. */
    ghost predicate LeftFrom(path: seq<State>, next: State, k: nat) {
      forall i :: 1 <= i < |path| ==> (i < k <==> path[i].path < next.path)
    }

    lemma ExitStep(s: State, next: State, k: nat)
      requires Declared() && s in states && next in states && s != root && 1 <= k <= |s.path| &&
        LeftFrom(s.path, next, k)
      ensures s.parent != null && s.parent in states
      ensures if s == next || !IsChild(next, s, states, root)
        then k <= |s.parent.path| && LeftFrom(s.parent.path, next, k) && s.path[k - 1] == s.parent.path[k - 1] &&
             s.path[k..] == s.parent.path[k..] + [s]
        else k == |s.path| && s.path[k - 1] == s && s.path[k..] == []
    {
      PathEnds(states, root, s);
      PathEnds(states, root, next);
      IsChildIsPrefix(next, s, states, root);
      assert s.path == s.parent.path + [s];
    }

    /** Exits the states from number `k` on, innermost first. */
    method Exit(s: State, next: State, ghost k: nat) returns (ok: bool, ghost made: seq<Call>, ghost now: State)
      requires Declared() && next in states && Consistent(s) && 1 <= k <= |s.path| && LeftFrom(s.path, next, k) &&
        Busy()
      modifies this`calls, this`myPendingState, this`myPendingInit, this`myPendingEvent, states
      ensures Consistent(now) && Pendings() == old(Pendings()) && calls == old(calls) + made
      ensures ok ==> now == s.path[k - 1] && AreExits(made, s.path[k..])
      ensures Went(ok, calls, |old(calls)|, old(Want()), false)
      ensures ok ==> Histories() == Erase(old(Histories()), Forgotten(calls, |old(calls)|))
      decreases |s.path|
    {
      ok, made, now := true, [], s;
      EraseNothing(Histories());
      WentNowhere(calls, Want(), false);
      hide Went;
      PathEnds(states, root, s);
      if s.parent == null {
        return;
      }
      ExitStep(s, next, k);
      if s == next || !IsChild(next, s, states, root) {
        ok, made := LeaveState(s);
        now := s.parent;
        if ok {
          ghost var more;
          ok, more, now := Exit(s.parent, next, k);
          JoinedWent(ok, old(calls), made, more, Want(), false);
          ErasedInTurn(old(Histories()), old(calls), made, more);
          ExitsJoin(made, s, more, s.parent.path[k..]);
          made := made + more;
        }
      }
    }

    // ---------- transitions ----------

    lemma RememberFine(h: map<State, State?>, s: State)
      requires Declared() && s in states && h.Keys == states && Fine(h)
      ensures Fine(Remember(h, s, s))
    {
      forall a | a in states && a.path < s.path ensures s.path[|a.path|] in states && a.path < s.path[|a.path|].path {
        PathInTree(states, root, s, |a.path|);
      }
    }

    lemma ExitPlan(cur: State, next: State)
      requires Declared() && cur in states && next in states
      ensures cur.path != [] && next.path != [] && LeftFrom(cur.path, next, Kept(cur, next))
    {
      PathEnds(states, root, cur);
      PathEnds(states, root, next);
      forall i | 1 <= i < |cur.path| ensures i < Kept(cur, next) <==> cur.path[i].path < next.path {
        KeptMeansProperSuperstate(cur, next, i, states, root);
      }
    }

    lemma EntryPlan(cur: State, next: State, i: nat)
      requires Declared() && cur in states && next in states && i < |next.path| - 1
      ensures cur.path != [] && next != root && (i < Kept(cur, next) <==> next.path[i].path <= cur.path)
    {
      PathEnds(states, root, cur);
      PathEnds(states, root, next);
      PathInTree(states, root, next, i);
      var p, k := next.path[..|next.path| - 1], Kept(cur, next);
      assert p[0] == root && k == Common(cur.path, p);
      assert p[..i + 1] == next.path[..i + 1];
      if i < k {
        assert p[..i + 1] == p[..k][..i + 1] == cur.path[..k][..i + 1];
      }
    }

    lemma TransitionPlan(cur: State, next: State)
      requires Declared() && cur in states && next in states
      ensures cur.path != [] && next.path != []
      ensures var k := Kept(cur, next);
        1 <= k <= |next.path| && LeftFrom(cur.path, next, k) && cur.path[k - 1] == next.path[k - 1] &&
        if next == root then KeptAt(next.path, cur, k)
        else k < |next.path| && KeptAt(next.path[..|next.path| - 1], cur, k)
    {
      ExitPlan(cur, next);
      PathEnds(states, root, cur);
      PathEnds(states, root, next);
      var k, p := Kept(cur, next), next.path[..|next.path| - 1];
      if next == root {
        assert next.path <= cur.path;
      } else {
        PathEnds(states, root, next.parent);
        assert p[0] == root && k == Common(cur.path, p);
        assert cur.path[..k][k - 1] == p[..k][k - 1];
        forall i | 0 <= i < |p| ensures i < k <==> p[i].path <= cur.path {
          EntryPlan(cur, next, i);
        }
      }
    }

    /** Calls an init action, which may ask for a further transition. */
    method CallInit(s: State, param: Option<nat>) returns (ok: bool, ghost made: seq<Call>)
      requires Declared() && s != root && Consistent(s) && myPendingState == null && myPendingEvent != NoEvent
      modifies this`calls, this`myPendingState, this`myPendingInit, this`myPendingEvent, states`myHistory
      ensures Consistent(s) && myPendingState != root && myPendingEvent == old(myPendingEvent)
      ensures made == [Initialized(s, param)] && calls == old(calls) + made
      ensures ok <==> Keeps(behaviour(made[0], old(calls)), Nothing, false)
      ensures ok ==> Want() == AskedFor(behaviour(made[0], old(calls)), Nothing, old(Histories()))
      ensures !ok ==> Failed(calls, |old(calls)|, Nothing, false)
      ensures ok ==> Histories() == Erase(old(Histories()), Forgotten(calls, |old(calls)|))
    {
      hide Keeps, AskedFor, Forgotten, Sound, Fine, Erase, Rooted, EventAfter;
      made := [Initialized(s, param)];
      OneWent(calls, made[0], Nothing, false);
      StaySound(s, calls, Slots(), constructed, Initialized(s, param));
      ok := CallUser(Initialized(s, param));
    }

    /** Goes on to the history of `s`, a proper substate. */
    method ResumeHistory(s: State)
      requires Declared() && Consistent(s) && myPendingState == null && s.myHistory != null
      modifies this`myPendingState, this`myPendingInit
      ensures Consistent(s) && Want() == Going(old(s.myHistory), Default(0)) && s.path < old(s.myHistory).path &&
        myPendingState != root
      ensures Histories() == old(Histories())
    {
      assert Designates(s, s.myHistory) by {
        assert Histories()[s] == s.myHistory;
      }
      PathEnds(states, root, s);
      PathEnds(states, root, s.myHistory);
      var ok := SetPendingState(s.myHistory, Default(0));
    }

    /** The history of `s` has been used up, or is out of date. */
    method ForgetHistory(s: State)
      requires Declared() && Consistent(s)
      modifies s`myHistory
      ensures Consistent(s) && Histories() == Erase(old(Histories()), {s}) && Pendings() == old(Pendings()) &&
        calls == old(calls)
    {
      EraseFine(Histories(), {s});
      ghost var b := Slots();
      SetHistory(s, null);
      assert Slots() == b;
    }

    /**
     * The initialization of `s`, where the histories are `h` and the calls so far `l`: with its history, if that is
     * asked for and there is one, as a default transition; otherwise by its init action, of which Root has none.
     */
    ghost predicate Begins(ok: bool, s: State, history: bool, param: Option<nat>, h: map<State, State?>, l: seq<Call>,
                           made: seq<Call>, w: Wanted) {
      s in h &&
      if history && h[s] != null then ok && made == [] && w == Going(h[s], Default(0)) && s.path < h[s].path
      else if s == root then ok && made == [] && w == Nothing
      else
        made == [Initialized(s, param)] &&
        var actions := behaviour(made[0], l);
        (ok <==> Keeps(actions, Nothing, false)) && (ok ==> w == AskedFor(actions, Nothing, h))
    }

    /** Continues with the history of `s` if there is one and it is asked for; otherwise calls the init action. */
    method ResumeOrInit(s: State, history: bool) returns (ok: bool, ghost made: seq<Call>)
      requires Declared() && Consistent(s) && myPendingState == null && myPendingEvent != NoEvent
      modifies this`calls, this`myPendingState, this`myPendingInit, this`myPendingEvent, states`myHistory
      ensures Consistent(s) && myPendingState != root && myPendingEvent == old(myPendingEvent) &&
        calls == old(calls) + made
      ensures Begins(ok, s, history, None, old(Histories()), old(calls), made, Want())
      ensures !ok ==> Failed(calls, |old(calls)|, Nothing, false)
      ensures ok ==> Histories() == Erase(old(Histories()), Forgotten(calls, |old(calls)|))
    {
      made, ok := [], true;
      EraseNothing(Histories());
      assert Forgotten(calls, |calls|) == {};
      assert Histories()[s] == s.myHistory;
      hide Keeps, AskedFor, Sound, Fine, Erase, Rooted, Forgotten, Failed;
      if history && s.myHistory != null {
        ResumeHistory(s);
      } else if s != root {
        ok, made := CallInit(s, None);
      }
    }

    /** The history is forgotten, whether or not it has been used. */
    method InitState(s: State, history: bool) returns (ok: bool, ghost made: seq<Call>)
      requires Declared() && Consistent(s) && myPendingState == null && myPendingEvent != NoEvent
      modifies this`calls, this`myPendingState, this`myPendingInit, this`myPendingEvent, states`myHistory
      ensures Consistent(s) && myPendingState != root && myPendingEvent == old(myPendingEvent) &&
        calls == old(calls) + made
      ensures Begins(ok, s, history, None, old(Histories()), old(calls), made, Want())
      ensures !ok ==> Failed(calls, |old(calls)|, Nothing, false)
      ensures ok ==> Histories() == Erase(old(Histories()), Forgotten(calls, |old(calls)|) + {s})
    {
      assert s in states && s in Histories();
      hide Keeps, AskedFor, Sound, Fine, Erase, Rooted, Forgotten, Failed, Begins;
      ghost var h := Histories();
      ok, made := ResumeOrInit(s, history);
      EraseTwice(h, Forgotten(calls, |old(calls)|), {s});
      ForgetHistory(s);
    }

    method ExecuteInit(s: State, init: Initializer) returns (ok: bool, ghost made: seq<Call>)
      requires Declared() && Consistent(s) && myPendingState == null && myPendingEvent != NoEvent &&
        (s == root ==> init.Default?)
      modifies this`calls, this`myPendingState, this`myPendingInit, this`myPendingEvent, states`myHistory
      ensures Consistent(s) && myPendingState != root && myPendingEvent == old(myPendingEvent) &&
        calls == old(calls) + made
      ensures Begins(ok, s, WantsHistory(init), Parameter(init), old(Histories()), old(calls), made, Want())
      ensures !ok ==> Failed(calls, |old(calls)|, Nothing, false)
      ensures ok ==> Histories() == Erase(old(Histories()), Forgotten(calls, |old(calls)|) +
        if init.Param? then {} else {s})
    {
      assert s in states && s in Histories();
      hide Keeps, AskedFor, Sound, Fine, Erase, Rooted, Forgotten, Failed;
      if init.Param? {
        ok, made := CallInit(s, Some(init.param));
        EraseTwice(old(Histories()), Forgotten(calls, |old(calls)|), {});
      } else {
        ok, made := InitState(s, WantsHistory(init));
      }
    }

    predicate WantsHistory(init: Initializer) {
      init.History? || init.Adapting?
    }

    function Parameter(init: Initializer): Option<nat> {
      if init.Param? then Some(init.param) else None
    }

    /** The histories once `cur` has been left by the exits `outs`. */
    ghost function Noted(h: map<State, State?>, l: seq<Call>, outs: seq<Call>, cur: State): map<State, State?> {
      Remember(Erase(h, Forgotten(l + outs, |l|)), cur, cur)
    }

    /** Notes the history of the state that has been left. */
    method KeepHistory(cur: State, ghost now: State)
      requires Declared() && Consistent(now) && cur in states
      modifies states`myHistory
      ensures Consistent(now) && Histories() == Remember(old(Histories()), cur, cur)
    {
      RememberFine(Histories(), cur);
      SetHistorySuper(cur, cur);
    }

    method SetCurrent(s: State, ghost now: State)
      requires Consistent(now)
      modifies this`myCurrentState
      ensures Consistent(now) && Histories() == old(Histories()) && myCurrentState == s
    {
      ghost var b := Slots();
      myCurrentState := s;
      assert Slots() == b;
    }

    /** The exits and entries of a transition. */
    ghost predicate Crosses(cur: State, next: State, outs: seq<Call>, ins: seq<Call>) {
      cur.path != [] && next.path != [] &&
      var k := Kept(cur, next);
      k <= |next.path| && AreExits(outs, cur.path[k..]) && AreEntries(ins, next.path[k..])
    }

    lemma Plan(cur: State, next: State) returns (k: nat)
      requires Declared() && cur in states && next in states
      ensures 1 <= k <= |cur.path| && k <= |next.path| && LeftFrom(cur.path, next, k) &&
        cur.path[k - 1] == next.path[k - 1]
      ensures if next == root then KeptAt(next.path, cur, k)
        else k < |next.path| && KeptAt(next.path[..|next.path| - 1], cur, k)
      ensures IsKept(cur, next, k)
    {
      TransitionPlan(cur, next);
      k := Kept(cur, next);
    }

    ghost predicate IsKept(cur: State, next: State, k: nat) {
      cur.path != [] && next.path != [] && k == Kept(cur, next)
    }

    lemma Crossed(cur: State, next: State, outs: seq<Call>, ins: seq<Call>, k: nat)
      requires IsKept(cur, next, k) && k <= |next.path| && AreExits(outs, cur.path[k..])
      ensures AreEntries(ins, next.path[k..]) ==> Crosses(cur, next, outs, ins)
    {
    }

    /** Exits the current state as far as needed, and notes its history. */
    method LeaveCurrent(cur: State, next: State, ghost k: nat)
      returns (ok: bool, ghost outs: seq<Call>, ghost now: State)
      requires Declared() && Consistent(cur) && Busy() && next in states
      requires 1 <= k <= |cur.path| && LeftFrom(cur.path, next, k)
      modifies this`calls, this`myPendingState, this`myPendingInit, this`myPendingEvent, states
      ensures Consistent(now) && Pendings() == old(Pendings()) && calls == old(calls) + outs
      ensures ok ==> now == cur.path[k - 1] && AreExits(outs, cur.path[k..])
      ensures Went(ok, calls, |old(calls)|, old(Want()), false)
      ensures ok ==> Histories() == Noted(old(Histories()), old(calls), outs, cur)
    {
      assert cur in states;
      hide Sound, Rooted, Remember, Erase, Forgotten, Fine, LeftFrom, AreExits, Went;
      ok, outs, now := Exit(cur, next, k);
      if ok {
        KeepHistory(cur, now);
      }
    }

    /** Makes `next` the current state, and enters it. */
    method EnterTarget(previous: State, next: State, ghost k: nat)
      returns (ok: bool, ghost ins: seq<Call>, ghost now: State)
      requires Declared() && previous in states && next in states && 1 <= k <= |next.path| &&
        Consistent(next.path[k - 1]) && Busy()
      requires if next == root then KeptAt(next.path, previous, k)
        else k < |next.path| && KeptAt(next.path[..|next.path| - 1], previous, k)
      modifies this`calls, this`constructed, this`myCurrentState, this`myPendingState, this`myPendingInit,
        this`myPendingEvent, states
      ensures Consistent(now) && Pendings() == old(Pendings()) && myCurrentState == next && calls == old(calls) + ins
      ensures ok ==> now == next && AreEntries(ins, next.path[k..])
      ensures Went(ok, calls, |old(calls)|, old(Want()), false)
      ensures ok ==> Histories() == Erase(old(Histories()), Forgotten(calls, |old(calls)|))
    {
      hide Sound, Rooted, Erase, Forgotten, Fine, KeptAt, AreEntries, Went;
      SetCurrent(next, next.path[k - 1]);
      ok, ins, now := Entry(next, previous, true, k);
    }

    /** Exits, history and entries. */
    method Move() returns (ok: bool, ghost outs: seq<Call>, ghost ins: seq<Call>, ghost now: State,
                            ghost noted: map<State, State?>)
      requires Declared() && myCurrentState != null && Consistent(myCurrentState) && Busy()
      modifies this`calls, this`constructed, this`myCurrentState, this`myPendingState, this`myPendingInit,
        this`myPendingEvent, states
      ensures Consistent(now) && Pendings() == old(Pendings()) && myCurrentState != null &&
        calls == old(calls) + (outs + ins)
      ensures ok ==> now == myCurrentState == old(myPendingState) && Crosses(old(myCurrentState), now, outs, ins)
      ensures Went(ok, calls, |old(calls)|, old(Want()), false)
      ensures ok ==> noted == Noted(old(Histories()), old(calls), outs, old(myCurrentState))
      ensures ok ==> Histories() == Erase(noted, Forgotten(calls, |old(calls) + outs|))
    {
      assert myCurrentState in states;
      hide Sound, Rooted, Remember, Erase, Forgotten, Fine, Noted, Crosses, KeptAt, LeftFrom, AreExits, AreEntries,
           Went;
      var previous, next := myCurrentState, myPendingState;
      ghost var k := Plan(previous, next);
      ins, noted := [], map[];
      ok, outs, now := LeaveCurrent(previous, next, k);
      Grouped(old(calls), outs, ins);
      if ok {
        noted := Histories();
        ok, ins, now := EnterTarget(previous, next, k);
        JoinedWent(ok, old(calls), outs, ins, Want(), false);
        Grouped(old(calls), outs, ins);
        Crossed(previous, next, outs, ins, k);
      }
    }

    /** Entries and exits may not dispatch events: an unused event slot is blocked. */
    method BlockEvents(ghost now: State)
      requires Consistent(now)
      modifies this`myPendingEvent
      ensures Consistent(now) && Histories() == old(Histories()) && myPendingEvent != NoEvent
      ensures old(myPendingEvent) != NoEvent ==> myPendingEvent == old(myPendingEvent)
      ensures old(myPendingEvent) == NoEvent ==> myPendingEvent == Dummy
    {
      if myPendingEvent == NoEvent {
        myPendingEvent := Dummy;
      }
    }

    method UnblockEvents(ghost now: State)
      requires Consistent(now)
      modifies this`myPendingEvent
      ensures Consistent(now) && Histories() == old(Histories())
      ensures myPendingEvent == if old(myPendingEvent) == Dummy then NoEvent else old(myPendingEvent)
    {
      if myPendingEvent == Dummy {
        myPendingEvent := NoEvent;
      }
    }

    /** The transition itself is complete; what remains is to initialize the target. */
    method TakePending(ghost now: State) returns (init: Initializer)
      requires Consistent(now)
      modifies this`myPendingState
      ensures Consistent(now) && Histories() == old(Histories()) && myPendingState == null && init == myPendingInit
    {
      init := myPendingInit;
      myPendingState := null;
    }

    /** May `s` be left pending by the initialization of `cur`? */
    method ProperSubstate(s: State?, cur: State) returns (ok: bool)
      requires Declared() && cur in states && (s != null ==> s in states)
      ensures ok <==> (s != null ==> cur.path < s.path)
    {
      ok := s == null || (IsChild(s, cur, states, root) && s != cur);
      if s != null {
        IsChildIsPrefix(s, cur, states, root);
        PathEnds(states, root, s);
        PathEnds(states, root, cur);
      }
    }

    /** What initializing `next` calls, and the transition it asks for. */
    ghost predicate Initializes(next: State, init: Initializer, h: map<State, State?>, l: seq<Call>, inits: seq<Call>,
                                pending: Wanted) {
      Begins(true, next, WantsHistory(init), Parameter(init), h, l, inits, pending)
    }

    /** Initializes the new current state, and checks where it wants to go next. */
    method InitTarget() returns (ok: bool, ghost made: seq<Call>)
      requires Declared() && myCurrentState != null && Consistent(myCurrentState) && myPendingState == myCurrentState
      requires myPendingEvent != NoEvent
      modifies this`calls, this`myPendingState, this`myPendingInit, this`myPendingEvent, states`myHistory
      ensures Consistent(myCurrentState) && calls == old(calls) + made
      ensures ok ==>
        Initializes(myCurrentState, old(myPendingInit), old(Histories()), old(calls), made, Want()) &&
        Onward(myCurrentState, Want())
      ensures ok ==> Histories() ==
                     Erase(old(Histories()), Forgotten(calls, |old(calls)|) + Done(old(myPendingInit), myCurrentState))
      ensures ok ==> myPendingEvent == if old(myPendingEvent) == Dummy then NoEvent else old(myPendingEvent)
      ensures !ok ==> InitFailed(myCurrentState, calls, made, Want())
    {
      hide *;
      InitReady(myCurrentState);
      ghost var init, l, h := myPendingInit, calls, Histories();
      ok, made := RunInit();
      InitOutcome(ok, myCurrentState, init, h, l, made, Want());
      if ok {
        ok := Conclude();
      }
    }

    /** Checks where initialization wants to go, and lets user code dispatch events again. */
    method Conclude() returns (ok: bool)
      requires Declared() && myCurrentState != null && Consistent(myCurrentState) && myPendingState != root
      modifies this`myPendingEvent
      ensures Consistent(myCurrentState) && Histories() == old(Histories()) && (ok <==> Onward(myCurrentState, Want()))
      ensures myPendingEvent == if old(myPendingEvent) == Dummy then NoEvent else old(myPendingEvent)
    {
      hide Sound, Rooted, Fine, Onward;
      ok := LeadsOnward();
      UnblockEvents(myCurrentState);
    }

    method RunInit() returns (ok: bool, ghost made: seq<Call>)
      requires Declared() && myCurrentState != null && Consistent(myCurrentState) && myPendingState == myCurrentState
      requires myPendingEvent != NoEvent
      modifies this`calls, this`myPendingState, this`myPendingInit, this`myPendingEvent, states`myHistory
      ensures Consistent(myCurrentState) && calls == old(calls) + made
      ensures myPendingState != root && myPendingEvent == old(myPendingEvent)
      ensures Begins(ok, myCurrentState, WantsHistory(old(myPendingInit)), Parameter(old(myPendingInit)),
                     old(Histories()), old(calls), made, Want())
      ensures !ok ==> Failed(calls, |old(calls)|, Nothing, false)
      ensures ok ==> Histories() ==
                     Erase(old(Histories()), Forgotten(calls, |old(calls)|) + Done(old(myPendingInit), myCurrentState))
    {
      InitReady(myCurrentState);
      hide Sound, Rooted, Erase, Forgotten, Fine, Begins, Failed;
      var init := TakePending(myCurrentState);
      ok, made := ExecuteInit(myCurrentState, init);
    }

    lemma InitReady(s: State)
      requires Consistent(s) && myPendingState == s
      ensures s in states && Histories().Keys == states && Fine(Histories()) && (s == root ==> myPendingInit.Default?)
    {
    }

    /** The init action has broken the rules, or wants to go elsewhere than to a proper substate. */
    ghost predicate InitFailed(s: State, l: seq<Call>, made: seq<Call>, w: Wanted) {
      |made| == 1 && Impolite(l) && (Broken(l, Nothing, false) || !Onward(s, w))
    }

    lemma InitOutcome(ok: bool, s: State, init: Initializer, h: map<State, State?>, l: seq<Call>, made: seq<Call>,
                      w: Wanted)
      requires Declared() && s in states && h.Keys == states && Fine(h)
      requires Begins(ok, s, WantsHistory(init), Parameter(init), h, l, made, w)
      requires !ok ==> Failed(l + made, |l|, Nothing, false)
      ensures ok ==> Initializes(s, init, h, l, made, w)
      ensures !ok || !Onward(s, w) ==> InitFailed(s, l + made, made, w)
    {
      hide Impolite, Broken, Onward;
      if ok {
        PoliteOnward(s, WantsHistory(init), Parameter(init), h, l, made, w);
      }
    }

    /** Polite inits lead on to a proper substate, as history does. */
    lemma PoliteOnward(s: State, history: bool, param: Option<nat>, h: map<State, State?>, l: seq<Call>,
                       made: seq<Call>, w: Wanted)
      requires Declared() && s in states && h.Keys == states && Fine(h)
      requires Begins(true, s, history, param, h, l, made, w)
      ensures Onward(s, w) || (|made| == 1 && Impolite(l + made))
    {
      PathEnds(states, root, root);
      PathEnds(states, root, s);
      if made != [] {
        var c := made[0];
        var actions := behaviour(c, l);
        assert (l + made)[..|l + made| - 1] == l;
        if Polite(c, actions) {
          var k := LastRequest(actions, Nothing, h);
          if exists a :: a in actions && a.SetState? {
            assert actions[k] in actions && NamesState(actions[k]);
            var t := actions[k].target;
            assert Designates(t, h[t]);
          }
        }
      }
    }

    method LeadsOnward() returns (ok: bool)
      requires Declared() && myCurrentState != null && Consistent(myCurrentState) && myPendingState != root
      ensures ok <==> Onward(myCurrentState, Want())
    {
      ok := ProperSubstate(myPendingState, myCurrentState);
    }

    /** The history of an initialized state is used up, unless it was initialized with parameters. */
    ghost function Done(init: Initializer, s: State): set<State> {
      if init.Param? then {} else {s}
    }

    /** Initialization leads nowhere or to a proper substate. */
    ghost predicate Onward(s: State, w: Wanted) {
      w.Going? ==> w.next != root && s.path < w.next.path
    }

    lemma ForgottenInTurn(h: map<State, State?>, l: seq<Call>, made: seq<Call>, start: nat, z: set<State>)
      requires start <= |l|
      ensures Erase(Erase(h, Forgotten(l, start)), Forgotten(l + made, |l|) + z) ==
        Erase(h, Forgotten(l + made, start) + z)
    {
      ForgottenSplit(l, made, start);
      EraseTwice(h, Forgotten(l, start), Forgotten(l + made, |l|) + z);
      assert Forgotten(l, start) + (Forgotten(l + made, |l|) + z) == Forgotten(l + made, start) + z;
    }

    /** What a transition from `cur` to `next` calls, in this order: exits, entries, initialization. */
    ghost predicate Transits(cur: State, next: State, init: Initializer, l: seq<Call>, outs: seq<Call>,
                             ins: seq<Call>, inits: seq<Call>,
                             h: map<State, State?>, k: map<State, State?>, pending: Wanted) {
      var noted, l1, n := Noted(h, l, outs, cur), l + (outs + ins), |l| + |outs|;
      Crosses(cur, next, outs, ins) && Obeyed(l1, |l|, Going(next, init), false) && next in noted &&
      Initializes(next, init, Erase(noted, Forgotten(l1, n)), l1, inits, pending) &&
      k == Erase(noted, Forgotten(l1 + inits, n) + Done(init, next)) &&
      Onward(next, pending)
    }

    lemma TransitsInTurn(cur: State, next: State, init: Initializer, l: seq<Call>, outs: seq<Call>, ins: seq<Call>,
                         inits: seq<Call>,
                         h: map<State, State?>, m: map<State, State?>, k: map<State, State?>, pending: Wanted)
      requires Obeyed(l + (outs + ins), |l|, Going(next, init), false)
      requires Crosses(cur, next, outs, ins) && Onward(next, pending) && next in h
      requires m == Erase(Noted(h, l, outs, cur), Forgotten(l + (outs + ins), |l| + |outs|))
      requires Initializes(next, init, m, l + (outs + ins), inits, pending)
      requires k == Erase(m, Forgotten(l + (outs + ins) + inits, |l + (outs + ins)|) + Done(init, next))
      ensures Transits(cur, next, init, l, outs, ins, inits, h, k, pending)
    {
      hide Crosses, Initializes, Forgotten, Obeyed;
      ForgottenInTurn(Noted(h, l, outs, cur), l + (outs + ins), inits, |l| + |outs|, Done(init, next));
    }

    /** One transition, with everything it calls and all it remembers. */
    method Transition()
      returns (ok: bool, ghost outs: seq<Call>, ghost ins: seq<Call>, ghost inits: seq<Call>, ghost now: State)
      requires Declared() && myCurrentState != null && Consistent(myCurrentState) && Busy()
      modifies this`calls, this`constructed, this`myCurrentState, this`myPendingState, this`myPendingInit,
        this`myPendingEvent, states
      ensures Consistent(now) && myCurrentState != null && calls == old(calls) + (outs + ins) + inits
      ensures ok ==> now == myCurrentState == old(myPendingState)
      ensures ok ==> myPendingEvent == if old(myPendingEvent) == Dummy then NoEvent else old(myPendingEvent)
      ensures ok ==> Transits(old(myCurrentState), now, old(myPendingInit), old(calls), outs, ins, inits,
                              old(Histories()), Histories(), Want())
      ensures !ok ==> |old(calls)| < |calls| && Impolite(calls)
      ensures !ok ==> if inits == [] then Broken(calls, old(Want()), false)
        else InitFailed(old(myPendingState), calls, inits, Want())
    {
      hide Sound, Rooted, Remember, Erase, Forgotten, Crosses, Transits, Initializes, Noted, Onward, Fine, Done,
           Broken, Impolite, Obeyed;
      ghost var cur, next, init, l, h := myCurrentState, myPendingState, myPendingInit, calls, Histories();
      inits := [];
      ghost var noted;
      ok, outs, ins, now, noted := Move();
      assert calls + [] == calls;
      if ok {
        ghost var m := Histories();
        ok, inits := InitTarget();
        if ok {
          TransitsInTurn(cur, next, init, l, outs, ins, inits, h, m, Histories(), Want());
        }
      }
    }

    // ---------- history over several transitions ----------

    /** The calls that a transition of a run has added, with those before it since the last one. */
    ghost function Log(l: seq<Call>, g: Leg): seq<Call> {
      l + g.idle + (g.outs + g.ins) + g.inits
    }

    /** The transitions of a run that began with the calls `l` and the histories `h`. */
    ghost predicate Happened(legs: seq<Leg>, l: seq<Call>, h: map<State, State?>) {
      legs == [] || (HappenedFirst(legs[0], l, h) && Happened(legs[1..], Log(l, legs[0]), legs[0].after))
    }

    /** Between transitions only user code forgets histories. */
    ghost predicate HappenedFirst(g: Leg, l: seq<Call>, h: map<State, State?>) {
      Transits(g.cur, g.next, g.init, l + g.idle, g.outs, g.ins, g.inits,
               Erase(h, Forgotten(l + g.idle, |l|)), g.after, g.pending)
    }

    ghost function LogAfter(legs: seq<Leg>, l: seq<Call>): seq<Call> {
      if legs == [] then l else LogAfter(legs[1..], Log(l, legs[0]))
    }

    ghost function HistoriesAfter(legs: seq<Leg>, h: map<State, State?>): map<State, State?> {
      if legs == [] then h else legs[|legs| - 1].after
    }

    /** A transition that neither leaves a substate of `a` nor uses up the history of `a`. */
    ghost predicate Spares(g: Leg, a: State) {
      !(a.path < g.cur.path) && (g.next != a || g.init.Param?)
    }

    lemma {:induction false} HappenedSplit(legs: seq<Leg>, more: seq<Leg>, l: seq<Call>, h: map<State, State?>)
      ensures Happened(legs + more, l, h) <==>
              Happened(legs, l, h) && Happened(more, LogAfter(legs, l), HistoriesAfter(legs, h))
    {
      hide HappenedFirst;
      if legs == [] {
        assert legs + more == more;
      } else {
        assert (legs + more)[1..] == legs[1..] + more;
        HappenedSplit(legs[1..], more, Log(l, legs[0]), legs[0].after);
      }
    }

    lemma {:induction false} LogGrows(legs: seq<Leg>, l: seq<Call>)
      ensures l <= LogAfter(legs, l)
    {
      if legs != [] {
        LogGrows(legs[1..], Log(l, legs[0]));
      }
    }

    /** What user code has not cleared up to some point, it has not cleared in any part before. */
    lemma NotForgotten(a: State, l: seq<Call>, all: seq<Call>, start: nat, end: nat)
      requires |l| <= end <= |all| && l == all[..|l|] && start <= |l| && a !in Forgotten(all, start)
      ensures a !in Forgotten(all[..end], start) && a !in Forgotten(all[..end], |l|)
    {
      assert all == all[..end] + all[end..] && all[..end] == l + all[|l|..end];
      ForgottenSplit(all[..end], all[end..], start);
      ForgottenSplit(l, all[|l|..end], start);
    }

    /** The parts of a transition's calls. */
    lemma NotForgottenIn(a: State, l: seq<Call>, g: Leg, upTo: seq<Call>, all: seq<Call>, start: nat)
      requires upTo == l + g.idle + (g.outs + g.ins) || upTo == Log(l, g)
      requires upTo <= all && start <= |l| && a !in Forgotten(all, start)
      ensures a !in Forgotten(l + g.idle, |l|) && a !in Forgotten(l + g.idle + g.outs, |l + g.idle|)
      ensures a !in Forgotten(upTo, |l + g.idle| + |g.outs|)
    {
      hide Forgotten, Log;
      var l1, l2 := l + g.idle, l + g.idle + g.outs;
      Grouped(l1, g.outs, g.ins);
      assert l <= l1 <= l2 <= upTo <= all by { LegInOrder(l, g, upTo, all); }
      NotForgotten(a, l, all, start, |l1|);
      NotForgotten(a, l1, all, start, |l2|);
      NotForgotten(a, l2, all, start, |upTo|);
      assert all[..|l1|] == l1 && all[..|l2|] == l2 && all[..|upTo|] == upTo;
    }

    lemma LegInOrder(l: seq<Call>, g: Leg, upTo: seq<Call>, all: seq<Call>)
      requires upTo == l + g.idle + (g.outs + g.ins) || upTo == Log(l, g)
      requires upTo <= all
      ensures l <= l + g.idle <= l + g.idle + g.outs <= upTo <= all
    {
      Grouped(l + g.idle, g.outs, g.ins);
      Grouped(l + g.idle + g.outs, g.ins, g.inits);
    }

    /** The histories that a transition leaves, and those that its initialization finds. */
    lemma LegHistories(g: Leg, l: seq<Call>, h: map<State, State?>)
      requires HappenedFirst(g, l, h)
      ensures var l1 := l + g.idle;
        var noted := Remember(Erase(Erase(h, Forgotten(l1, |l|)), Forgotten(l1 + g.outs, |l1|)), g.cur, g.cur);
        var found := Erase(noted, Forgotten(l1 + (g.outs + g.ins), |l1| + |g.outs|));
        g.after == Erase(noted, Forgotten(Log(l, g), |l1| + |g.outs|) + Done(g.init, g.next)) &&
        g.next in found && Initializes(g.next, g.init, found, l1 + (g.outs + g.ins), g.inits, g.pending)
    {
      hide Crosses, Forgotten, Onward, Initializes, Remember, Done;
    }

    lemma KeptThrough(a: State, h: map<State, State?>, cur: State, z0: set<State>, z1: set<State>, z2: set<State>)
      requires a in h && a !in z0 && a !in z1
      ensures var noted := Remember(Erase(Erase(h, z0), z1), cur, cur);
        a in noted && a in Erase(noted, z2) &&
        (!(a.path < cur.path) ==> noted[a] == h[a]) &&
        (a !in z2 ==> Erase(noted, z2)[a] == noted[a])
    {
    }

    /** One such transition keeps the history of `a`. */
    lemma SparedOnce(a: State, g: Leg, l: seq<Call>, h: map<State, State?>, all: seq<Call>)
      requires HappenedFirst(g, l, h) && Spares(g, a) && a in h
      requires Log(l, g) <= all && a !in Forgotten(all, |l|)
      ensures a in g.after && g.after[a] == h[a]
    {
      hide HappenedFirst, Forgotten, Initializes, Erase, Remember, Log;
      NotForgottenIn(a, l, g, Log(l, g), all, |l|);
      LegHistories(g, l, h);
      var l1 := l + g.idle;
      KeptThrough(a, h, g.cur, Forgotten(l1, |l|), Forgotten(l1 + g.outs, |l1|),
                  Forgotten(Log(l, g), |l1| + |g.outs|) + Done(g.init, g.next));
    }

    /** So do any number of them. */
    lemma {:induction false} Spared(a: State, legs: seq<Leg>, l: seq<Call>, h: map<State, State?>, all: seq<Call>)
      requires Happened(legs, l, h) && a in h && forall g :: g in legs ==> Spares(g, a)
      requires LogAfter(legs, l) <= all && a !in Forgotten(all, |l|)
      ensures a in HistoriesAfter(legs, h) && HistoriesAfter(legs, h)[a] == h[a]
    {
      hide HappenedFirst, Forgotten, Spares;
      if legs != [] {
        var g := legs[0];
        LogGrows(legs[1..], Log(l, g));
        SparedOnce(a, g, l, h, all);
        SparedLater(a, g, l, all);
        Spared(a, legs[1..], Log(l, g), g.after, all);
      }
    }

    lemma SparedLater(a: State, g: Leg, l: seq<Call>, all: seq<Call>)
      requires Log(l, g) <= all && a !in Forgotten(all, |l|)
      ensures a !in Forgotten(all, |Log(l, g)|)
    {
      hide Forgotten;
      assert all[..|Log(l, g)|] == Log(l, g) && l <= Log(l, g);
      ForgottenSplit(l, all[|l|..], |l|);
      assert all == l + all[|l|..];
      NotForgotten(a, Log(l, g), all, |l|, |all|);
      assert all[..|all|] == all;
    }

    /** Leaving `cur` notes it, or the substate of `a` around it. */
    lemma NotedOnce(a: State, g: Leg, l: seq<Call>, h: map<State, State?>, all: seq<Call>)
      requires HappenedFirst(g, l, h) && a in h && a.mode != NoHistory && a.path < g.cur.path
      requires g.next != a || g.init.Param?
      requires Log(l, g) <= all && a !in Forgotten(all, |l + g.idle + g.outs|)
      ensures a in g.after && g.after[a] == if a.mode == Deep then g.cur else g.cur.path[|a.path|]
    {
      hide Crosses, Forgotten, Onward, Initializes;
      var l1 := l + g.idle;
      Grouped(l1, g.outs, g.ins);
      Grouped(l1 + g.outs, g.ins, g.inits);
      NotForgotten(a, l1 + g.outs, all, |l1 + g.outs|, |Log(l, g)|);
      assert all[..|Log(l, g)|] == Log(l, g);
    }

    /** Going to `a` with its history resumes it. */
    lemma ResumedOnce(a: State, g: Leg, l: seq<Call>, h: map<State, State?>)
      requires HappenedFirst(g, l, h) && a in h && h[a] != null && g.next == a && WantsHistory(g.init)
      requires !(a.path < g.cur.path) && a !in Forgotten(l + g.idle + (g.outs + g.ins), |l|)
      ensures g.pending == Going(h[a], Default(0)) && g.inits == []
    {
      hide HappenedFirst, Forgotten, Erase, Remember, Log;
      var all := l + g.idle + (g.outs + g.ins);
      NotForgottenIn(a, l, g, all, all, |l|);
      LegHistories(g, l, h);
      var l1 := l + g.idle;
      KeptThrough(a, h, g.cur, Forgotten(l1, |l|), Forgotten(l1 + g.outs, |l1|), Forgotten(all, |l1| + |g.outs|));
    }

    /** Going to `a` with its history, from a substate of it, leaves that one and resumes it at once. */
    lemma ReturnedAtOnce(a: State, g: Leg, l: seq<Call>, h: map<State, State?>)
      requires HappenedFirst(g, l, h) && a in h && a.mode != NoHistory
      requires a.path < g.cur.path && g.next == a && WantsHistory(g.init)
      requires a !in Forgotten(l + g.idle + (g.outs + g.ins), |l + g.idle + g.outs|)
      ensures g.pending == Going(if a.mode == Deep then g.cur else g.cur.path[|a.path|], Default(0)) && g.inits == []
    {
      hide HappenedFirst, Forgotten;
      LegHistories(g, l, h);
      assert |l + g.idle + g.outs| == |l + g.idle| + |g.outs|;
    }

    /** Going to `a` later on, after any transitions that spare its history. */
    lemma ReturnedLater(a: State, leave: Leg, between: seq<Leg>, back: Leg, l: seq<Call>, h: map<State, State?>)
      requires Happened([leave] + between + [back], l, h) && a in h && a.mode != NoHistory
      requires a.path < leave.cur.path && (leave.next != a || leave.init.Param?)
      requires forall g :: g in between ==> Spares(g, a)
      requires !(a.path < back.cur.path) && back.next == a && WantsHistory(back.init)
      requires var all := LogAfter([leave] + between, l) + back.idle + (back.outs + back.ins);
        a !in Forgotten(all, |l + leave.idle + leave.outs|)
      ensures back.pending == Going(if a.mode == Deep then leave.cur else leave.cur.path[|a.path|], Default(0))
      ensures back.inits == []
    {
      hide HappenedFirst, Forgotten, Spares;
      var l1 := Log(l, leave);
      var l2 := LogAfter(between, l1);
      var all := l2 + back.idle + (back.outs + back.ins);
      var start := |l + leave.idle + leave.outs|;
      assert ([leave] + between)[1..] == between && LogAfter([leave] + between, l) == l2;
      HappenedSplit([leave] + between, [back], l, h);
      assert [leave][1..] == [];
      HappenedSplit([leave], between, l, h);
      LogGrows(between, l1);
      assert l1 <= l2 <= all && all[..|l1|] == l1 && all[..|l2|] == l2 && all[..|all|] == all;
      NotedOnce(a, leave, l, h, all);
      NotForgotten(a, l1, all, start, |all|);
      Spared(a, between, l1, leave.after, all);
      NotForgotten(a, l2, all, start, |all|);
      assert HistoriesAfter([leave] + between, h) == HistoriesAfter(between, leave.after);
      ResumedOnce(a, back, l2, HistoriesAfter(between, leave.after));
    }

    lemma {:induction false} HistoriesOfAll(legs: seq<Leg>, l: seq<Call>, h: map<State, State?>)
      requires Happened(legs, l, h)
      ensures HistoriesAfter(legs, h).Keys == h.Keys
    {
      hide HappenedFirst, Forgotten, Initializes, Log;
      if legs != [] {
        LegHistories(legs[0], l, h);
        HistoriesOfAll(legs[1..], Log(l, legs[0]), legs[0].after);
      }
    }

    /**
     * In any run whose last transition goes to a state `a` with its history, this resumes the state that was current
     * when something below `a` was left last (deep history) or the child of `a` around it (shallow history). That may
     * have been in the same transition or in an earlier one, transition `k`, whatever happened in between, unless user
     * code has cleared the history or an initialization of `a` has used it up.
     */
    lemma HistoryReturns(a: State, legs: seq<Leg>, k: nat, l: seq<Call>, h: map<State, State?>)
      requires Happened(legs, l, h) && a in h && a.mode != NoHistory && k < |legs|
      requires legs[|legs| - 1].next == a && (legs[|legs| - 1].init.History? || legs[|legs| - 1].init.Adapting?)
      requires a.path < legs[k].cur.path && forall i :: k < i < |legs| ==> !(a.path < legs[i].cur.path)
      requires forall i :: k <= i < |legs| - 1 ==> legs[i].next != a || legs[i].init.Param?
      requires var back := legs[|legs| - 1];
        var all := LogAfter(legs[..|legs| - 1], l) + back.idle + (back.outs + back.ins);
        a !in Forgotten(all, |LogAfter(legs[..k], l) + legs[k].idle + legs[k].outs|)
      ensures var back := legs[|legs| - 1];
        back.inits == [] &&
        back.pending == Going(if a.mode == Deep then legs[k].cur else legs[k].cur.path[|a.path|], Default(0))
    {
      hide *;
      HistoryWanted(legs[|legs| - 1].init);
      var n := |legs| - 1;
      var first := legs[..k];
      FromTo(legs, k);
      HappenedSplit(first, legs[k..], l, h);
      HistoriesOfAll(first, l, h);
      if k == n {
        OneHappened(legs[n], LogAfter(first, l), HistoriesAfter(first, h));
        ReturnedAtOnce(a, legs[n], LogAfter(first, l), HistoriesAfter(first, h));
      } else {
        var between := legs[k + 1..n];
        LogJoined(first, [legs[k]] + between, l);
        AllSpare(a, legs, k + 1, n);
        ReturnedLater(a, legs[k], between, legs[n], LogAfter(first, l), HistoriesAfter(first, h));
      }
    }

    lemma HistoryWanted(init: Initializer)
      ensures WantsHistory(init) <==> init.History? || init.Adapting?
    {
    }

    lemma OneHappened(g: Leg, l: seq<Call>, h: map<State, State?>)
      requires Happened([g], l, h)
      ensures HappenedFirst(g, l, h)
    {
      hide HappenedFirst;
    }

    lemma AllSpare(a: State, legs: seq<Leg>, i: nat, j: nat)
      requires i <= j <= |legs|
      requires forall m :: i <= m < j ==> !(a.path < legs[m].cur.path) && (legs[m].next != a || legs[m].init.Param?)
      ensures forall g :: g in legs[i..j] ==> Spares(g, a)
    {
      forall g | g in legs[i..j] ensures Spares(g, a) {
        var m :| i <= m < j && legs[m] == g;
      }
    }

    lemma {:induction false} LogJoined(legs: seq<Leg>, more: seq<Leg>, l: seq<Call>)
      ensures LogAfter(legs + more, l) == LogAfter(more, LogAfter(legs, l))
    {
      if legs == [] {
        assert legs + more == more;
      } else {
        assert (legs + more)[1..] == legs[1..] + more;
        LogJoined(legs[1..], more, Log(l, legs[0]));
      }
    }

    /** Before the start there is no history. */
    ghost function NoHistories(): map<State, State?> {
      map s | s in states :: null
    }

    /** The transitions so far explain the calls and histories so far. */
    ghost predicate Trace(legs: seq<Leg>, l: seq<Call>, h: map<State, State?>) {
      var m := LogAfter(legs, []);
      Happened(legs, [], NoHistories()) && m <= l &&
      h == Erase(HistoriesAfter(legs, NoHistories()), Forgotten(l, |m|))
    }

    ghost predicate Traced()
      reads this, states
    {
      Trace(legs, calls, Histories())
    }

    lemma TraceStarts()
      ensures Trace([], [], NoHistories())
    {
    }

    lemma TraceCalls(legs: seq<Leg>, l: seq<Call>, h: map<State, State?>, more: seq<Call>)
      requires Trace(legs, l, h)
      ensures Trace(legs, l + more, Erase(h, Forgotten(l + more, |l|)))
    {
      hide Happened, Erase, Forgotten, HistoriesAfter, LogAfter;
      var m := LogAfter(legs, []);
      assert l == m + l[|m|..];
      ErasedInTurn(HistoriesAfter(legs, NoHistories()), m, l[|m|..], more);
    }

    lemma TraceLeg(legs: seq<Leg>, l: seq<Call>, h: map<State, State?>, g: Leg)
      requires Trace(legs, l, h) && LogAfter(legs, []) + g.idle == l
      requires Transits(g.cur, g.next, g.init, l, g.outs, g.ins, g.inits, h, g.after, g.pending)
      ensures Trace(legs + [g], l + (g.outs + g.ins) + g.inits, g.after)
    {
      hide Transits, Erase, Forgotten;
      var m, h0 := LogAfter(legs, []), NoHistories();
      assert l[|m|..] == g.idle && [g][1..] == [];
      assert HappenedFirst(g, m, HistoriesAfter(legs, h0));
      HappenedSplit(legs, [g], [], h0);
      LogJoined(legs, [g], []);
      NothingForgotten(g.after, Log(m, g));
    }

    lemma NothingForgotten(h: map<State, State?>, l: seq<Call>)
      ensures Erase(h, Forgotten(l, |l|)) == h
    {
    }

    // ---------- the engine as a transition system ----------

    ghost function Now(): Situation
      requires myCurrentState != null
      reads this`myCurrentState, this`myPendingState, this`myPendingInit, this`myPendingEvent, this`calls,
        states`myHistory
    {
      Situation(myCurrentState, Want(), myPendingEvent, calls, Histories())
    }

    /** Nothing is pending. */
    ghost predicate Resting(a: Situation) {
      a.want == Nothing && a.event == NoEvent
    }

    /** The transition that is pending is made, with the histories and the transition that it leaves. */
    ghost predicate Makes(a: Situation, g: Leg, b: Situation) {
      a.want == Going(g.next, g.init) && g.cur == a.cur &&
      Transits(g.cur, g.next, g.init, a.log, g.outs, g.ins, g.inits, a.histories, g.after, g.pending) &&
      b == Situation(g.next, g.pending, a.event, a.log + (g.outs + g.ins) + g.inits, g.after)
    }

    /** The current state handles the event that is pending, and what its handler asks for becomes pending. */
    ghost predicate Serves(a: Situation, b: Situation) {
      a.want == Nothing && a.event.Pending? &&
      var c := Handled(a.cur, a.event.event);
      var actions := behaviour(c, a.log);
      Keeps(actions, Nothing, true) &&
      b == Situation(a.cur, AskedFor(actions, Nothing, a.histories), EventAfter(actions, NoEvent), a.log + [c],
                     Erase(a.histories, WipedBy(actions)))
    }

    ghost predicate Right(s: Step) {
      match s.cause
      case Moving(g) => Makes(s.from, g, s.to)
      case Serving => Serves(s.from, s.to)
      case Told(w) => Resting(s.from) && s.to == s.from.(want := w)
      case Given(e) => Resting(s.from) && s.to == s.from.(event := Pending(e))
    }

    /** Right steps that lead from `a` to `b`. */
    ghost predicate Course(c: seq<Step>, a: Situation, b: Situation) {
      if c == [] then a == b
      else
        var s := c[|c| - 1];
        Course(c[..|c| - 1], a, s.from) && Right(s) && s.to == b
    }

    /** What comes from outside. */
    ghost function Inputs(c: seq<Step>): seq<Cause> {
      if c == [] then []
      else
        var x := c[|c| - 1].cause;
        Inputs(c[..|c| - 1]) + if x.Told? || x.Given? then [x] else []
    }

    ghost function LegsOf(c: seq<Step>): seq<Leg> {
      if c == [] then []
      else
        var x := c[|c| - 1].cause;
        LegsOf(c[..|c| - 1]) + if x.Moving? then [x.leg] else []
    }

    /** How many events are handled. */
    ghost function Served(c: seq<Step>): nat {
      if c == [] then 0 else Served(c[..|c| - 1]) + if c[|c| - 1].cause.Serving? then 1 else 0
    }

    lemma CourseOn(c: seq<Step>, a: Situation, s: Step)
      requires Course(c, a, s.from) && Right(s)
      ensures Course(c + [s], a, s.to)
      ensures Inputs(c + [s]) == Inputs(c) + (if s.cause.Told? || s.cause.Given? then [s.cause] else [])
      ensures LegsOf(c + [s]) == LegsOf(c) + if s.cause.Moving? then [s.cause.leg] else []
      ensures Served(c + [s]) == Served(c) + if s.cause.Serving? then 1 else 0
    {
      hide Right;
      assert (c + [s])[..|c|] == c;
    }

    /** The last step, and what is before it. */
    lemma CourseParts(c: seq<Step>, a: Situation, b: Situation)
      requires Course(c, a, b) && c != []
      ensures var front, s := c[..|c| - 1], c[|c| - 1];
        Course(front, a, s.from) && Right(s) && s.to == b &&
        Inputs(c) == Inputs(front) + (if s.cause.Told? || s.cause.Given? then [s.cause] else []) &&
        LegsOf(c) == LegsOf(front) + (if s.cause.Moving? then [s.cause.leg] else []) &&
        Served(c) == Served(front) + if s.cause.Serving? then 1 else 0
    {
      hide Right;
    }

    lemma {:induction false} CourseJoined(c: seq<Step>, d: seq<Step>, a: Situation, m: Situation, b: Situation)
      requires Course(c, a, m) && Course(d, m, b)
      ensures Course(c + d, a, b) && Inputs(c + d) == Inputs(c) + Inputs(d) && LegsOf(c + d) == LegsOf(c) + LegsOf(d)
      ensures Served(c + d) == Served(c) + Served(d)
    {
      hide *;
      if d == [] {
        NoSteps(m, b);
        assert c + d == c;
      } else {
        var n := |d| - 1;
        CourseParts(d, m, b);
        CourseJoined(c, d[..n], a, m, d[n].from);
        assert c + d == (c + d[..n]) + [d[n]];
        CourseOn(c + d[..n], a, d[n]);
      }
    }

    lemma NoSteps(a: Situation, b: Situation)
      ensures Course([], a, b) <==> a == b
      ensures Inputs([]) == [] && LegsOf([]) == [] && Served([]) == 0
    {
    }

    lemma CourseOfOne(s: Step)
      requires Right(s)
      ensures Course([s], s.from, s.to)
      ensures Inputs([s]) == if s.cause.Told? || s.cause.Given? then [s.cause] else []
      ensures LegsOf([s]) == if s.cause.Moving? then [s.cause.leg] else []
      ensures Served([s]) == if s.cause.Serving? then 1 else 0
    {
      CourseOn([], s.from, s);
    }

    /** A transition that is pending is made first. */
    lemma {:induction false} PendingIsMade(c: seq<Step>, a: Situation, b: Situation)
      requires Course(c, a, b) && c != [] && a.want.Going?
      ensures LegsOf(c) != [] && LegsOf(c)[0].cur == a.cur && Going(LegsOf(c)[0].next, LegsOf(c)[0].init) == a.want
    {
      hide Transits, Keeps, Course, LegsOf;
      var n := |c| - 1;
      CourseParts(c, a, b);
      NoSteps(a, c[n].from);
      if n > 0 {
        PendingIsMade(c[..n], a, c[n].from);
      } else {
        assert c[..n] == [];
      }
    }

    /** Without a request nothing happens. */
    lemma {:induction false} NothingPending(c: seq<Step>, a: Situation, b: Situation)
      requires Course(c, a, b) && Resting(a) && Inputs(c) == []
      ensures c == []
    {
      hide Transits, Course, Inputs, Keeps;
      if c != [] {
        CourseParts(c, a, b);
        NothingPending(c[..|c| - 1], a, c[|c| - 1].from);
        NoSteps(a, c[|c| - 1].from);
      }
    }

    // ---------- events ----------

    /**
     * The event that is pending after the calls from number `start` on: a call of a handler takes the one that is
     * pending, and a handler may dispatch another one when there is none.
     */
    ghost function Queued(l: seq<Call>, start: nat, e: PendingEvent): Option<PendingEvent> {
      if |l| <= start then Some(e)
      else
        var c, before := l[|l| - 1], l[..|l| - 1];
        var actions, q := behaviour(c, before), Queued(before, start, e);
        if !c.Handled? then if NoneDispatched(actions) then q else None
        else if q == Some(Pending(c.event)) then Some(EventAfter(actions, NoEvent)) else None
    }

    /** The events that user code dispatches in the calls from number `start` on. */
    ghost function DispatchedIn(l: seq<Call>, start: nat): seq<Event> {
      if |l| <= start then []
      else
        var before := l[..|l| - 1];
        DispatchedIn(before, start) + Queue(EventAfter(behaviour(l[|l| - 1], before), NoEvent))
    }

    ghost function HandledIn(l: seq<Call>, start: nat): seq<Event> {
      if |l| <= start then []
      else
        var c := l[|l| - 1];
        HandledIn(l[..|l| - 1], start) + if c.Handled? then [c.event] else []
    }

    ghost function Queue(e: PendingEvent): seq<Event> {
      if e.Pending? then [e.event] else []
    }

    /** Events are handled one for one, in the order in which they have been dispatched. */
    lemma {:induction false} HandledInOrder(l: seq<Call>, start: nat, e: PendingEvent)
      requires Queued(l, start, e).Some?
      ensures Queue(e) + DispatchedIn(l, start) == HandledIn(l, start) + Queue(Queued(l, start, e).value)
    {
      if start < |l| {
        var c, before := l[|l| - 1], l[..|l| - 1];
        var actions := behaviour(c, before);
        hide EventAfter;
        HandledInOrder(before, start, e);
        LastEvent(actions, NoEvent);
        var x := Queue(EventAfter(actions, NoEvent));
        Grouped(Queue(e), DispatchedIn(before, start), x);
        if !c.Handled? {
          assert x == [];
        }
      }
    }

    /** An event that call number `i` dispatches is the next one to be handled, if it is not still pending. */
    lemma {:induction false} DispatchIsHandled(l: seq<Call>, start: nat, e: PendingEvent, i: nat) returns (j: nat)
      requires Queued(l, start, e).Some? && start <= i < |l| && !NoneDispatched(behaviour(l[i], l[..i]))
      ensures var x := EventAfter(behaviour(l[i], l[..i]), NoEvent);
        x.Pending? && i < j <= |l| && (forall k :: i < k < j ==> !l[k].Handled?) &&
        if j < |l| then l[j].Handled? && l[j].event == x.event else Queued(l, start, e) == Some(x)
    {
      var n := |l| - 1;
      var c, before := l[n], l[..n];
      LastEvent(behaviour(l[i], l[..i]), NoEvent);
      if i == n {
        j := n + 1;
      } else {
        assert before[i] == l[i] && before[..i] == l[..i];
        j := DispatchIsHandled(before, start, e, i);
        if j == n && !c.Handled? {
          j := n + 1;
        }
      }
    }

    /** Calls that neither handle nor dispatch an event. */
    ghost predicate Silent(l: seq<Call>, start: nat) {
      forall i :: start <= i < |l| ==> !l[i].Handled? && NoneDispatched(behaviour(l[i], l[..i]))
    }

    lemma {:induction false} SilentQueue(l: seq<Call>, m: seq<Call>, start: nat, e: PendingEvent)
      requires start <= |l| && Silent(l + m, |l|)
      ensures Queued(l + m, start, e) == Queued(l, start, e)
    {
      if m == [] {
        assert l + m == l;
      } else {
        var n := |m| - 1;
        assert (l + m)[..|l + m| - 1] == l + m[..n];
        forall i | |l| <= i < |l + m[..n]|
          ensures (l + m[..n])[i] == (l + m)[i] && (l + m[..n])[..i] == (l + m)[..i] {
        }
        SilentQueue(l, m[..n], start, e);
        assert (l + m)[|l + m| - 1] == m[n];
      }
    }

    lemma TransitsSilently(a: Situation, g: Leg, b: Situation)
      requires Makes(a, g, b)
      ensures b.log == a.log + (g.outs + g.ins + g.inits) && Silent(b.log, |a.log|)
    {
      hide Remember, Erase, Forgotten, Noted, Onward, AskedFor;
      var l, l1 := a.log, a.log + (g.outs + g.ins);
      assert b.log == l1 + g.inits;
      forall i | |l| <= i < |b.log| ensures !b.log[i].Handled? && NoneDispatched(behaviour(b.log[i], b.log[..i])) {
        if i < |l1| {
          assert b.log[i] == l1[i] && b.log[..i] == l1[..i];
          assert Keeps(behaviour(l1[i], l1[..i]), Going(g.next, g.init), false);
        } else {
          assert b.log[i] == g.inits[0] && b.log[..i] == l1;
        }
      }
    }

    /** In a course without inputs events are queued that way. */
    lemma {:induction false} CourseQueues(c: seq<Step>, a: Situation, b: Situation)
      requires Course(c, a, b) && Inputs(c) == []
      ensures a.log <= b.log && Queued(b.log, |a.log|, a.event) == Some(b.event)
    {
      if c != [] {
        var n := |c| - 1;
        var s := c[n];
        assert Right(s);
        CourseQueues(c[..n], a, s.from);
        hide Right, Course, Transits, Keeps, AskedFor, Erase, WipedBy;
        StepQueues(s, |a.log|, a.event);
      }
    }

    lemma StepQueues(s: Step, start: nat, e: PendingEvent)
      requires Right(s) && !s.cause.Told? && !s.cause.Given? && start <= |s.from.log|
      requires Queued(s.from.log, start, e) == Some(s.from.event)
      ensures s.from.log <= s.to.log && Queued(s.to.log, start, e) == Some(s.to.event)
    {
      hide Transits, Keeps, AskedFor, Erase, WipedBy;
      var l := s.from.log;
      if s.cause.Moving? {
        var g := s.cause.leg;
        TransitsSilently(s.from, g, s.to);
        SilentQueue(l, g.outs + g.ins + g.inits, start, e);
      } else {
        assert s.to.log[..|s.to.log| - 1] == l;
      }
    }

    // ---------- runs ----------

    /** The state that the pending transition, if any, leads to. */
    ghost function Destination(): State?
      reads this`myCurrentState, this`myPendingState
    {
      if myPendingState != null then myPendingState else myCurrentState
    }

    ghost function Rank(s: State?): nat {
      if s != null && |s.path| <= height then height + 1 - |s.path| else 0
    }

    /** A failed assertion ends everything, and is due to the last call of user code. */
    ghost predicate Stopped(l: seq<Call>, n: nat) {
      n < |l| && Impolite(l)
    }

    /** The engine by itself has come from `a` to `b`, and has made the transitions that are new in `legs`. */
    ghost predicate Led(c: seq<Step>, a: Situation, b: Situation, before: seq<Leg>, legs: seq<Leg>) {
      Course(c, a, b) && Inputs(c) == [] && legs == before + LegsOf(c)
    }

    lemma SomewhereElse(c: seq<Step>, a: Situation, b: Situation)
      requires Course(c, a, b)
      ensures a != b || Served(c) > 0 ==> c != []
    {
    }

    lemma LedNowhere(a: Situation, legs: seq<Leg>)
      ensures Led([], a, a, legs, legs) && Served([]) == 0
    {
    }

    lemma LedOn(c: seq<Step>, d: seq<Step>, a: Situation, m: Situation, b: Situation, x: seq<Leg>, y: seq<Leg>,
                z: seq<Leg>)
      requires Led(c, a, m, x, y) && Led(d, m, b, y, z)
      ensures Led(c + d, a, b, x, z) && Served(c + d) == Served(c) + Served(d)
    {
      CourseJoined(c, d, a, m, b);
      Grouped(x, LegsOf(c), LegsOf(d));
    }

    /** The pending transition is made; it ends in its target, and goes on only to a proper substate of it. */
    method Iterate() returns (ok: bool, ghost now: State, ghost c: seq<Step>)
      requires Declared() && myCurrentState != null && Consistent(myCurrentState) && Traced()
      requires myPendingState != null && myPendingEvent != Dummy
      modifies this`calls, this`legs, this`constructed, this`myCurrentState, this`myPendingState, this`myPendingInit,
        this`myPendingEvent, states
      ensures Consistent(now) && myCurrentState != null && old(calls) <= calls && (ok ==> Traced())
      ensures ok ==> now == myCurrentState == old(myPendingState) && myPendingEvent == old(myPendingEvent)
      ensures ok ==> Onward(now, Want())
      ensures ok && now == root ==> myPendingState == null
      ensures ok ==> Led(c, old(Now()), Now(), old(legs), legs) && Served(c) == 0
      ensures !ok ==> Stopped(calls, |old(calls)|)
    {
      hide Sound, Rooted, Remember, Erase, Forgotten, Fine, Crosses, Noted, Trace, Transits, LogAfter, Led, Impolite,
           Broken, Onward, InitFailed;
      ghost var a, l, h := Now(), calls, Histories();
      ghost var cur, next, init := myCurrentState, myPendingState, myPendingInit;
      BlockEvents(myCurrentState);
      ghost var outs, ins, inits;
      c := [];
      ok, outs, ins, inits, now := Transition();
      if ok {
        ghost var idle := IdleCalls(legs, l, h);
        ghost var g := Leg(idle, cur, next, init, outs, ins, inits, Histories(), Want());
        TraceLeg(legs, l, h, g);
        TransitsOnward(g, l, h);
        LedByOne(a, g, Now(), legs);
        legs := legs + [g];
        c := [Step(a, Moving(g), Now())];
      }
    }

    lemma LedByOne(a: Situation, g: Leg, b: Situation, legs: seq<Leg>)
      requires Makes(a, g, b)
      ensures Led([Step(a, Moving(g), b)], a, b, legs, legs + [g]) && Served([Step(a, Moving(g), b)]) == 0
    {
      hide Makes;
      CourseOfOne(Step(a, Moving(g), b));
    }

    lemma IdleCalls(legs: seq<Leg>, l: seq<Call>, h: map<State, State?>) returns (idle: seq<Call>)
      requires Trace(legs, l, h)
      ensures LogAfter(legs, []) + idle == l
    {
      hide Happened, Erase, Forgotten, HistoriesAfter, LogAfter;
      idle := l[|LogAfter(legs, [])|..];
    }

    lemma TransitsOnward(g: Leg, l: seq<Call>, h: map<State, State?>)
      requires Transits(g.cur, g.next, g.init, l, g.outs, g.ins, g.inits, h, g.after, g.pending)
      ensures Onward(g.next, g.pending)
      ensures g.next == root && g.pending.Going? ==> WantsHistory(g.init)
    {
      hide Crosses, Erase, Noted, Forgotten, Onward;
    }

    /**
     * Carries out the pending transition and those that initialization asks for: each one leads deeper, so that the
     * last one ends in the state asked for or below it.
     */
    method Settle() returns (ok: bool, ghost now: State, ghost c: seq<Step>)
      requires Declared() && myCurrentState != null && Consistent(myCurrentState) && Traced() && myPendingEvent != Dummy
      modifies this`calls, this`legs, this`constructed, this`myCurrentState, this`myPendingState, this`myPendingInit,
        this`myPendingEvent, states
      ensures Consistent(now) && myCurrentState != null && old(calls) <= calls && (ok ==> Traced())
      ensures ok ==> now == myCurrentState && myPendingState == null && myPendingEvent == old(myPendingEvent)
      ensures ok ==> (now == root <==> old(Destination()) == root)
      ensures ok ==> old(Destination()) != null && old(Destination()).path <= now.path
      ensures ok ==> Led(c, old(Now()), Now(), old(legs), legs) && Served(c) == 0
      ensures !ok ==> Stopped(calls, |old(calls)|)
    {
      hide Sound, Rooted, Fine, Trace, Led, Impolite, Erase, Served;
      ok, now, c := true, myCurrentState, [];
      ghost var a, ls := Now(), legs;
      LedNowhere(a, ls);
      while ok && myPendingState != null
        invariant Consistent(now) && myCurrentState != null && old(calls) <= calls && (ok ==> Traced())
        invariant ok ==> now == myCurrentState && myPendingEvent == old(myPendingEvent)
        invariant ok ==> (Destination() == root <==> old(Destination()) == root)
        invariant ok ==> old(Destination()) != null && old(Destination()).path <= Destination().path
        invariant ok ==> Led(c, a, Now(), ls, legs) && Served(c) == 0
        invariant !ok ==> Stopped(calls, |old(calls)|)
        decreases ok, Rank(myPendingState)
      {
        ghost var m, before, d := Now(), legs, [];
        ok, now, d := Iterate();
        if ok {
          LedOn(c, d, a, m, Now(), ls, before, legs);
          c := c + d;
        }
      }
    }

    /** Calls the event handler of the current state. */
    method Handle(e: Event) returns (ok: bool, ghost c: seq<Step>)
      requires Declared() && myCurrentState != null && myCurrentState != root && Consistent(myCurrentState)
      requires myPendingState == null && myPendingEvent == NoEvent && Traced()
      modifies this`calls, this`myPendingState, this`myPendingInit, this`myPendingEvent, states`myHistory
      ensures Consistent(myCurrentState) && myPendingState != root && myPendingEvent != Dummy
      ensures calls == old(calls) + [Handled(myCurrentState, e)]
      ensures ok ==> Histories() == Erase(old(Histories()), Forgotten(calls, |old(calls)|)) && Traced()
      ensures ok <==> Keeps(behaviour(Handled(myCurrentState, e), old(calls)), Nothing, true)
      ensures ok ==> Led(c, old(Now()).(event := Pending(e)), Now(), legs, legs) && Served(c) == |c| == 1
      ensures !ok ==> Stopped(calls, |old(calls)|)
    {
      hide Sound, Rooted, Fine, Trace, Impolite, Erase, Keeps, AskedFor, EventAfter, Led, Forgotten;
      ghost var a, l := Now(), calls;
      var call := Handled(myCurrentState, e);
      c := [];
      TraceCalls(legs, calls, Histories(), [call]);
      StaySound(myCurrentState, calls, Slots(), constructed, call);
      OneWent(calls, call, Nothing, true);
      ForgottenByOne(l, call);
      ok := CallUser(call);
      if ok {
        c := [Step(a.(event := Pending(e)), Serving, Now())];
        LedByEvent(a.(event := Pending(e)), Now(), legs);
      }
    }

    lemma ForgottenByOne(l: seq<Call>, c: Call)
      ensures Forgotten(l + [c], |l|) == WipedBy(behaviour(c, l))
    {
      assert (l + [c])[..|l|] == l && Forgotten(l, |l|) == {};
    }

    lemma LedByEvent(a: Situation, b: Situation, legs: seq<Leg>)
      requires Serves(a, b)
      ensures Led([Step(a, Serving, b)], a, b, legs, legs) && Served([Step(a, Serving, b)]) == 1
    {
      hide Serves;
      CourseOfOne(Step(a, Serving, b));
    }

    /** Settles the transitions, then lets the current state handle a pending event. */
    method Round() returns (ok: bool, ghost now: State, ghost c: seq<Step>)
      requires Declared() && myCurrentState != null && Consistent(myCurrentState) && Traced() && myPendingEvent != Dummy
      requires myPendingEvent != NoEvent ==> Destination() != root
      modifies this`calls, this`legs, this`constructed, this`myCurrentState, this`myPendingState, this`myPendingInit,
        this`myPendingEvent, states
      ensures Consistent(now) && myCurrentState != null && old(calls) <= calls && (ok ==> Traced())
      ensures ok ==> now == myCurrentState && myPendingEvent != Dummy
      ensures ok ==> (Destination() == root <==> old(Destination()) == root)
      ensures ok && old(myPendingEvent) == NoEvent ==> myPendingEvent == NoEvent && myPendingState == null
      ensures ok && old(myPendingEvent) == NoEvent ==>
        old(Destination()) != null && old(Destination()).path <= now.path
      ensures ok && old(myPendingEvent) != NoEvent ==> Destination() != root
      ensures ok ==> Led(c, old(Now()), Now(), old(legs), legs)
      ensures ok ==> Served(c) == if old(myPendingEvent) == NoEvent then 0 else 1
      ensures ok && old(myPendingEvent).Pending? ==>
        |old(calls)| < |calls| && calls[|calls| - 1] == Handled(now, old(myPendingEvent).event)
      ensures !ok ==> Stopped(calls, |old(calls)|)
    {
      hide Sound, Rooted, Erase, Forgotten, Fine, Trace, Led, Impolite, Keeps, Served;
      ghost var a, ls := Now(), legs;
      ok, now, c := Settle();
      if ok && myPendingEvent != NoEvent {
        ghost var m, d := Now(), [];
        var e := TakeEvent(now);
        ok, d := Handle(e);
        if ok {
          LedOn(c, d, a, m, Now(), ls, legs, legs);
          c := c + d;
        }
      }
    }

    /**
     * Works off transitions and events until nothing is pending; `rounds` bounds the number of rounds,
     * since handlers may dispatch events for ever.
     */
    method RattleOn(rounds: nat) returns (ok: bool, done: bool, ghost now: State, ghost c: seq<Step>)
      requires Declared() && myCurrentState != null && Consistent(myCurrentState) && Traced() && myPendingEvent != Dummy
      requires myPendingEvent != NoEvent ==> Destination() != root
      modifies this`calls, this`legs, this`constructed, this`myCurrentState, this`myPendingState, this`myPendingInit,
        this`myPendingEvent, states
      ensures Consistent(now) && myCurrentState != null && old(calls) <= calls && (ok ==> Traced())
      ensures ok ==> now == myCurrentState && myPendingEvent != Dummy
      ensures ok ==> (Destination() == root <==> old(Destination()) == root)
      ensures ok && done && old(myPendingEvent) == NoEvent ==>
        old(Destination()) != null && old(Destination()).path <= now.path
      ensures done <==> myPendingState == null && myPendingEvent == NoEvent
      ensures ok && old(myPendingEvent) == NoEvent && rounds > 0 ==> done
      ensures ok ==> Led(c, old(Now()), Now(), old(legs), legs)
      ensures ok && rounds > 0 && !old(Resting(Now())) ==> c != []
      ensures ok ==> Queued(calls, |old(calls)|, old(myPendingEvent)) == Some(myPendingEvent)
      ensures ok ==> Queue(old(myPendingEvent)) + DispatchedIn(calls, |old(calls)|) ==
                     HandledIn(calls, |old(calls)|) + Queue(myPendingEvent)
      ensures ok && !done ==> Served(c) == rounds
      ensures !ok ==> Stopped(calls, |old(calls)|)
    {
      hide Sound, Rooted, Fine, Trace, Led, Impolite, Erase, Queued, Served, DispatchedIn, HandledIn, Queue;
      ok, now, c := true, myCurrentState, [];
      ghost var a, ls := Now(), legs;
      LedNowhere(a, ls);
      var n := rounds;
      while ok && n > 0 && (myPendingState != null || myPendingEvent != NoEvent)
        invariant Consistent(now) && myCurrentState != null && old(calls) <= calls && (ok ==> Traced())
        invariant ok ==> now == myCurrentState && myPendingEvent != Dummy
        invariant ok ==> (Destination() == root <==> old(Destination()) == root)
        invariant ok && old(myPendingEvent) == NoEvent ==>
          old(Destination()) != null && old(Destination()).path <= Destination().path
        invariant ok && myPendingEvent != NoEvent ==> Destination() != root
        invariant ok && old(myPendingEvent) == NoEvent ==>
          myPendingEvent == NoEvent && (n < rounds ==> myPendingState == null)
        invariant 0 <= n <= rounds && (ok ==> Led(c, a, Now(), ls, legs))
        invariant ok && (myPendingState != null || myPendingEvent != NoEvent) ==> Served(c) == rounds - n
        invariant !ok ==> Stopped(calls, |old(calls)|)
        decreases n
      {
        ghost var m, before, d := Now(), legs, [];
        ok, now, d := Round();
        if ok {
          LedOn(c, d, a, m, Now(), ls, before, legs);
          c := c + d;
        }
        n := n - 1;
      }
      done := myPendingState == null && myPendingEvent == NoEvent;
      if ok {
        LedMeans(c, a, Now(), ls, legs);
      }
    }

    lemma LedMeans(c: seq<Step>, a: Situation, b: Situation, before: seq<Leg>, legs: seq<Leg>)
      requires Led(c, a, b, before, legs)
      ensures a != b || Served(c) > 0 ==> c != []
      ensures Queued(b.log, |a.log|, a.event) == Some(b.event)
      ensures Queue(a.event) + DispatchedIn(b.log, |a.log|) == HandledIn(b.log, |a.log|) + Queue(b.event)
    {
      hide Queued, DispatchedIn, HandledIn;
      SomewhereElse(c, a, b);
      CourseQueues(c, a, b);
      HandledInOrder(b.log, |a.log|, a.event);
    }

    lemma {:induction false} HandlerAsks(c: seq<Step>, a: Situation, b: Situation, legs: seq<Leg>, actions: seq<Action>)
      requires Led(c, a, b, legs, legs) && Served(c) == 1 && |c| == 1 && a.event.Pending?
      requires actions == behaviour(Handled(a.cur, a.event.event), a.log)
      ensures b.want == AskedFor(actions, Nothing, a.histories) && b.event == EventAfter(actions, NoEvent)
      ensures b.cur == a.cur
    {
      hide AskedFor, EventAfter, Keeps, Erase, Course, Served;
      CourseParts(c, a, b);
      NoSteps(a, c[0].from);
      assert c[..0] == [];
    }

    /** What is pending is done first; nothing is done if there is nothing. */
    lemma Aftermath(c: seq<Step>, a: Situation, b: Situation, before: seq<Leg>, legs: seq<Leg>)
      requires Led(c, a, b, before, legs)
      ensures a.want.Going? && c != [] ==>
        |before| < |legs| && legs[|before|].cur == a.cur && Going(legs[|before|].next, legs[|before|].init) == a.want
      ensures Resting(a) ==> b == a && legs == before
    {
      if a.want.Going? && c != [] {
        PendingIsMade(c, a, b);
      }
      if Resting(a) {
        NothingPending(c, a, b);
      }
    }

    method TakeEvent(ghost now: State) returns (e: Event)
      requires Consistent(now) && myPendingEvent.Pending?
      modifies this`myPendingEvent
      ensures Consistent(now) && myPendingEvent == NoEvent && e == old(myPendingEvent.event)
      ensures Histories() == old(Histories())
    {
      e := myPendingEvent.event;
      myPendingEvent := NoEvent;
    }

    /** The machine has started and is between two events. */
    ghost predicate Running()
      reads this, states
    {
      Valid() && myCurrentState != root
    }

    method GoTo(target: State, init: Initializer, rounds: nat)
      returns (ok: bool, done: bool, ghost now: State, ghost c: seq<Step>)
      requires Valid() && target in states && (target == root ==> init.Default?)
      modifies this`calls, this`legs, this`constructed, this`myCurrentState, this`myPendingState, this`myPendingInit,
        this`myPendingEvent, states
      ensures Consistent(now) && myCurrentState != null && old(calls) <= calls
      ensures ok && done ==> Valid() && now == myCurrentState && (now == root <==> target == root)
      ensures ok && done ==> target.path <= now.path
      ensures ok && rounds > 0 ==> done
      ensures ok ==> Led(c, old(Now()).(want := Going(target, init)), Now(), old(legs), legs)
      ensures !ok ==> Stopped(calls, |old(calls)|)
    {
      hide Sound, Rooted, Fine, Trace, Led, Impolite, Queued, Served, DispatchedIn, HandledIn, Queue;
      ok := RequestState(target, init);
      ok, done, now, c := RattleOn(rounds);
    }

    method RequestState(s: State, init: Initializer) returns (ok: bool)
      requires Valid() && s in states && (s == root ==> init.Default?)
      modifies this`myPendingState, this`myPendingInit
      ensures ok && Consistent(myCurrentState) && Destination() == s && Histories() == old(Histories()) && Traced()
      ensures Want() == Going(s, init)
    {
      hide Sound, Rooted, Fine, Trace;
      ghost var b, h := Slots(), Histories();
      ok := SetPendingState(s, init);
      assert Slots() == b && Histories() == h;
    }

    /** Enters the start state, given by an alias or being the top state. */
    method Start(target: State, init: Initializer, rounds: nat)
      returns (ok: bool, done: bool, ghost now: State, ghost c: seq<Step>)
      requires Valid() && myCurrentState == root && target in states && target != root
      modifies this`calls, this`legs, this`constructed, this`myCurrentState, this`myPendingState, this`myPendingInit,
        this`myPendingEvent, states
      ensures Consistent(now) && myCurrentState != null && old(calls) <= calls
      ensures ok && done ==> Running() && now == myCurrentState && target.path <= now.path
      ensures ok && rounds > 0 ==> done
      ensures ok ==>
        Led(c, old(Now()).(want := Going(Resolved(target, init, old(Histories())), init)), Now(), old(legs), legs)
      ensures !ok ==> Stopped(calls, |old(calls)|)
    {
      hide Sound, Rooted, Fine, Trace, Led, Impolite;
      var s := Adapt(target, init);
      ok, done, now, c := GoTo(s, init, rounds);
    }

    /**
     * An event: its handler is called on the current state, then everything it asks for is carried out. If that is a
     * transition, it is the first one made; if it is nothing, nothing else happens.
     */
    method DispatchEvent(e: Event, rounds: nat) returns (ok: bool, done: bool, ghost now: State, ghost c: seq<Step>)
      requires Running()
      modifies this`calls, this`legs, this`constructed, this`myCurrentState, this`myPendingState, this`myPendingInit,
        this`myPendingEvent, states
      ensures Consistent(now) && myCurrentState != null && old(calls) + [Handled(old(myCurrentState), e)] <= calls
      ensures ok && done ==> Running() && now == myCurrentState
      ensures ok ==> Led(c, old(Now()).(event := Pending(e)), Now(), old(legs), legs)
      ensures ok ==> Queued(calls, |old(calls)|, Pending(e)) == Some(myPendingEvent)
      ensures ok ==> Queue(Pending(e)) + DispatchedIn(calls, |old(calls)|) ==
                     HandledIn(calls, |old(calls)|) + Queue(myPendingEvent)
      ensures var actions := behaviour(Handled(old(myCurrentState), e), old(calls));
        var w := AskedFor(actions, Nothing, old(Histories()));
        (ok && w.Going? && rounds > 0 ==>
          |old(legs)| < |legs| && legs[|old(legs)|].cur == old(myCurrentState) &&
          Going(legs[|old(legs)|].next, legs[|old(legs)|].init) == w) &&
        (ok && w == Nothing && NoneDispatched(actions) ==>
          done && legs == old(legs) && calls == old(calls) + [Handled(old(myCurrentState), e)]) &&
        (ok && rounds > 0 && !done ==> !NoneDispatched(actions) && Served(c) == rounds + 1)
      ensures !ok ==> Stopped(calls, |old(calls)|)
    {
      hide Sound, Rooted, Fine, Trace, Led, Impolite, Queued, Served, AskedFor, EventAfter, NoneDispatched, Erase,
           Forgotten, Keeps, DispatchedIn, HandledIn, Queue;
      now, done := myCurrentState, false;
      ghost var a, ls, l := Now(), legs, calls;
      ghost var actions := behaviour(Handled(myCurrentState, e), calls);
      LastEvent(actions, NoEvent);
      ok, c := Handle(e);
      if ok {
        ghost var m, d := Now(), [];
        HandlerAsks(c, a.(event := Pending(e)), m, ls, actions);
        ok, done, now, d := RattleOn(rounds);
        if ok {
          Aftermath(d, m, Now(), ls, legs);
          LedOn(c, d, a.(event := Pending(e)), m, Now(), ls, ls, legs);
          c := c + d;
          LedMeans(c, a.(event := Pending(e)), Now(), ls, legs);
        }
      }
    }

    /** Exits all states. */
    method Shutdown() returns (ok: bool, ghost now: State, ghost c: seq<Step>)
      requires Running()
      modifies this`calls, this`legs, this`constructed, this`myCurrentState, this`myPendingState, this`myPendingInit,
        this`myPendingEvent, states
      ensures Consistent(now) && old(calls) <= calls
      ensures ok ==> now == root && myCurrentState == null && Traced()
      ensures ok ==> Led(c, old(Now()).(want := Going(root, Default(0))),
                         Situation(root, Nothing, NoEvent, calls, Histories()), old(legs), legs)
      ensures !ok ==> Stopped(calls, |old(calls)|)
    {
      hide Sound, Fine, Trace, Led, Impolite;
      var done;
      ok, done, now, c := GoTo(root, Default(0), 1);
      if ok {
        Stop(now);
      }
    }

    method Stop(ghost now: State)
      requires Consistent(now)
      modifies this`myCurrentState
      ensures Consistent(now) && myCurrentState == null && Histories() == old(Histories())
    {
      ghost var b, h := Slots(), Histories();
      myCurrentState := null;
      assert Slots() == b && Histories() == h;
    }

    /** With nothing but Root active, every entry has had its exit and the boxes that do not persist are gone. */
    lemma AllExited(l: seq<Call>, b: map<State, Slot>, n: nat, s: State)
      requires Declared() && Sound(root, l, b, n) && s in states
      ensures Open(l) == Nested([]) && Entries(l, s) == Exits(l, s)
      ensures s.ownBox && !s.persistent && LastBox(l, s).Some? ==> b[s].box == None
    {
      PathEnds(states, root, root);
      assert Placed(states, root, s);
      EntriesHaveExits(l, s);
    }

    /** A box that does not persist lives exactly as long as its state is active. */
    lemma BoxWhileActive(a: State, l: seq<Call>, b: map<State, Slot>, n: nat, s: State)
      requires Declared() && OnlyBelowRoot(top, states, root) && a != root
      requires Sound(a, l, b, n) && s in states && s.ownBox && !s.persistent
      ensures b[s].box.Some? <==> s in a.path
      ensures s in a.path ==> b[s].box == LastBox(l, s)
      ensures b[s].place ==> b[s].box == None
    {
      PathEnds(states, root, a);
      PathInTree(states, root, a, 1);
      assert Placed(states, root, a.path[1]) && Placed(states, root, s);
      var f := Open(l).frames;
      assert a.path[1].path == a.path[..2] == [root, a.path[1]];
      PathEnds(states, root, a.path[1]);
      PathEnds(states, root, a.path[1].parent);
      assert a.path[1].parent.path == [root];
      OpenHasBox(l, 0);
      if s in a.path {
        var i :| 0 <= i < |a.path| && a.path[i] == s;
        assert f[i - 1].s == s;
        OpenHasBox(l, i - 1);
      }
      if LastBox(l, s).Some? {
        LastBoxKnown(l, s);
      }
    }

    ghost function GivenAll(events: seq<Event>): seq<Cause> {
      if events == [] then [] else GivenAll(events[..|events| - 1]) + [Given(events[|events| - 1])]
    }

    /** Some handler dispatches an event. */
    ghost predicate SomeDispatch(l: seq<Call>) {
      exists i :: 0 <= i < |l| && !NoneDispatched(behaviour(l[i], l[..i]))
    }

    /** What an input makes of a situation. */
    ghost function With(a: Situation, x: Cause): Situation {
      match x
      case Told(w) => a.(want := w)
      case Given(e) => a.(event := Pending(e))
      case _ => a
    }

    /** An input, and what the engine does until nothing is pending. */
    lemma MoreCourse(c: seq<Step>, a: Situation, m: Situation, x: Cause, d: seq<Step>, b: Situation, before: seq<Leg>,
                     legs: seq<Leg>) returns (all: seq<Step>)
      requires Course(c, a, m) && Resting(m) && (x.Told? || x.Given?) && Led(d, With(m, x), b, before, legs)
      ensures Course(all, a, b) && Inputs(all) == Inputs(c) + [x]
    {
      hide Course, Inputs;
      var s := Step(m, x, With(m, x));
      CourseOn(c, a, s);
      LedIsCourse(d, With(m, x), b, before, legs);
      CourseJoined(c + [s], d, a, With(m, x), b);
      all := c + [s] + d;
    }

    lemma LedIsCourse(c: seq<Step>, a: Situation, b: Situation, before: seq<Leg>, legs: seq<Leg>)
      requires Led(c, a, b, before, legs)
      ensures Course(c, a, b) && Inputs(c) == []
    {
    }

    lemma ToldCourse(c: seq<Step>, a: Situation, m: Situation, w: Wanted, d: seq<Step>, b: Situation, before: seq<Leg>,
                     legs: seq<Leg>) returns (all: seq<Step>)
      requires Course(c, a, m) && Resting(m) && Led(d, m.(want := w), b, before, legs)
      ensures Course(all, a, b) && Inputs(all) == Inputs(c) + [Told(w)]
    {
      hide Led, Inputs, Course;
      all := MoreCourse(c, a, m, Told(w), d, b, before, legs);
    }

    lemma GivenCourse(c: seq<Step>, a: Situation, m: Situation, e: Event, d: seq<Step>, b: Situation, before: seq<Leg>,
                      legs: seq<Leg>) returns (all: seq<Step>)
      requires Course(c, a, m) && Resting(m) && Led(d, m.(event := Pending(e)), b, before, legs)
      ensures Course(all, a, b) && Inputs(all) == Inputs(c) + [Given(e)]
    {
      hide Led, Inputs, Course;
      all := MoreCourse(c, a, m, Given(e), d, b, before, legs);
    }

    lemma AtRest()
      ensures Valid() ==> myCurrentState != null && Resting(Now())
      ensures Running() ==> Valid() && myCurrentState != null && myCurrentState != root
    {
    }

    lemma NoneGiven(first: Cause)
      ensures [first] + GivenAll([]) == [] + [first]
    {
    }

    lemma WhyStopped(ok: bool, l: seq<Call>, n: nat)
      requires ok || Stopped(l, n)
      ensures ok || Impolite(l)
    {
    }

    lemma HandlerDispatches(l: seq<Call>, c: Call)
      requires l + [c] <= calls
      ensures !NoneDispatched(behaviour(c, l)) ==> SomeDispatch(calls)
    {
      assert calls[|l|] == c && calls[..|l|] == l;
    }

    lemma GivenNext(first: Cause, events: seq<Event>, i: nat)
      requires i < |events|
      ensures [first] + GivenAll(events[..i + 1]) == [first] + GivenAll(events[..i]) + [Given(events[i])]
    {
      assert events[..i + 1][..i] == events[..i];
    }

    lemma WellNested(a: State)
      requires Consistent(a)
      ensures Open(calls).Nested? && BoxesKept(calls)
    {
    }

    /** With Root alone active, that is so of all states. */
    lemma EverythingExited()
      requires Declared() && Consistent(root)
      ensures forall s :: s in states ==> Entries(calls, s) == Exits(calls, s)
      ensures forall s :: s in states && s.ownBox && !s.persistent && LastBox(calls, s).Some? ==> s.myBox == None
    {
      forall s | s in states ensures Entries(calls, s) == Exits(calls, s)
        ensures s.ownBox && !s.persistent && LastBox(calls, s).Some? ==> s.myBox == None
      {
        AllExited(calls, Slots(), constructed, s);
      }
    }

    /**
     * A whole run: start, any number of events, shutdown. Everything in it follows from these inputs step by step. It
     * finishes unless user code is impolite, or dispatches events itself, which may go on for ever.
     */
    method Run(target: State, init: Initializer, events: seq<Event>, rounds: nat)
      returns (finished: bool, ghost c: seq<Step>)
      requires Valid() && myCurrentState == root && calls == [] && target in states && target != root
      modifies this`calls, this`legs, this`constructed, this`myCurrentState, this`myPendingState, this`myPendingInit,
        this`myPendingEvent, states
      ensures Open(calls).Nested? && BoxesKept(calls) && (finished ==> Traced())
      ensures finished ==> forall s :: s in states ==> Entries(calls, s) == Exits(calls, s)
      ensures finished ==> forall s :: s in states && s.ownBox && !s.persistent && LastBox(calls, s).Some? ==>
        s.myBox == None
      ensures finished ==> myCurrentState == null
      ensures finished ==> Course(c, old(Now()), Situation(root, Nothing, NoEvent, calls, Histories()))
      ensures finished ==>
        Inputs(c) == [Told(Going(Resolved(target, init, old(Histories())), init))] + GivenAll(events) +
                     [Told(Going(root, Default(0)))]
      ensures finished || rounds == 0 || Impolite(calls) || SomeDispatch(calls)
      ensures rounds > 0 &&
              (forall c: Call, m: seq<Call> :: Polite(c, behaviour(c, m)) && NoneDispatched(behaviour(c, m))) ==>
              finished
    {
      hide *;
      ghost var a, ls, w := Now(), legs, Going(Resolved(target, init, Histories()), init);
      ghost var now;
      var ok, done;
      AtRest();
      ok, done, now, c := Start(target, init, rounds);
      if ok {
        NoSteps(a, a);
        NoneGiven(Told(w));
        c := ToldCourse([], a, a, w, c, Now(), ls, legs);
      }
      WhyStopped(ok, calls, 0);
      assert events[..0] == [];
      var i := 0;
      while ok && done && i < |events|
        invariant i <= |events| && Consistent(now)
        invariant ok && done ==> Running()
        invariant ok ==> myCurrentState != null && Course(c, a, Now()) && Inputs(c) == [Told(w)] + GivenAll(events[..i])
        invariant (ok && done) || rounds == 0 || Impolite(calls) || SomeDispatch(calls)
      {
        AtRest();
        ghost var m, before, d, l, cur := Now(), legs, [], calls, myCurrentState;
        ok, done, now, d := DispatchEvent(events[i], rounds);
        WhyStopped(ok, calls, |l|);
        HandlerDispatches(l, Handled(cur, events[i]));
        if ok {
          c := GivenCourse(c, a, m, events[i], d, Now(), before, legs);
          GivenNext(Told(w), events, i);
        }
        i := i + 1;
      }
      assert ok && done ==> events[..i] == events;
      finished := false;
      if ok && done {
        AtRest();
        ghost var m, before, d, l := Now(), legs, [], calls;
        finished, now, d := Shutdown();
        WhyStopped(finished, calls, |l|);
        if finished {
          c := ToldCourse(c, a, m, Going(root, Default(0)), d,
                          Situation(root, Nothing, NoEvent, calls, Histories()), before, legs);
        }
      }
      WellNested(now);
      if finished {
        EverythingExited();
      } else if forall c: Call, m: seq<Call> :: Polite(c, behaviour(c, m)) && NoneDispatched(behaviour(c, m)) {
        NothingStops();
      }
    }

    /** So with user code that is polite whenever it is called no assertion fails. */
    lemma NeverStopped(l: seq<Call>, n: nat)
      requires forall c: Call, m: seq<Call> :: Polite(c, behaviour(c, m))
      ensures !Stopped(l, n)
    {
      hide Polite;
    }

    lemma NothingStops()
      requires forall c: Call, m: seq<Call> :: Polite(c, behaviour(c, m)) && NoneDispatched(behaviour(c, m))
      ensures !Impolite(calls) && !SomeDispatch(calls)
    {
      hide Polite, NoneDispatched;
    }
  }
}
