/** Message dispatchers: registrations flood the network, and packets are sent on by the tables they leave. */
module MessageDispatchers {
  import opened DispatcherCircuits
  import opened DispatcherNetwork
  import opened Sequences

  /** What can be registered; protocol number -1 stands for any protocol. */
  datatype Key =
    | Service(protocol: int, primitive: int)
    | Protocol(protocol: int, primitive: int)
    | Interface(id: int)

  class MessageDispatcher {
    const ports: seq<Port>
    var gateIndex: map<Key, nat>
    var registeringProtocol: Option<int>
    var registeringAny: bool

    constructor (ports: seq<Port>)
      ensures this.ports == ports && gateIndex == map[] && registeringProtocol == None && !registeringAny
    {
      this.ports, gateIndex, registeringProtocol, registeringAny := ports, map[], None, false;
    }

    /** Is the guard up that a registration of this key uses? */
    predicate IsGuarded(k: Key)
      requires !k.Interface?
      reads this`registeringProtocol, this`registeringAny
    {
      if k.protocol == -1 then registeringAny else registeringProtocol.Some?
    }

    /** Raises it, or drops the registration if it is up; that is an error if it is up for another protocol. */
    method RaiseGuard(k: Key) returns (ok: bool, dropped: bool)
      requires !k.Interface?
      modifies this`registeringProtocol, this`registeringAny
      ensures IsGuarded(k) && dropped == old(IsGuarded(k))
      ensures ok <==> k.protocol == -1 || registeringProtocol == Some(k.protocol)
      ensures registeringProtocol ==
        if k.protocol == -1 || old(IsGuarded(k)) then old(registeringProtocol) else Some(k.protocol)
      ensures registeringAny == (old(registeringAny) || k.protocol == -1)
    {
      ok, dropped := true, false;
      if k.protocol == -1 {
        dropped := registeringAny;
        registeringAny := true;
      } else if registeringProtocol.Some? {
        dropped := true;
        ok := registeringProtocol == Some(k.protocol);
      } else {
        registeringProtocol := Some(k.protocol);
      }
    }

    /** The gate for a packet: the entry for what it is meant for, or for services and protocols the one for any. */
    function LookUp(k: Key): Option<nat>
      reads this`gateIndex
    {
      if k in gateIndex then Some(gateIndex[k])
      else match k
        case Service(_, p) => if Service(-1, p) in gateIndex then Some(gateIndex[Service(-1, p)]) else None
        case Protocol(_, p) => if Protocol(-1, p) in gateIndex then Some(gateIndex[Protocol(-1, p)]) else None
        case Interface(_) => None
    }
  }

  class Network {
    const nodes: seq<MessageDispatcher>

    constructor (nodes: seq<MessageDispatcher>)
      ensures this.nodes == nodes
    {
      this.nodes := nodes;
    }

    /**
     * The connections that registrations for a key go along. Those of a dispatcher with itself do not count for
     * services and protocols, since the guard drops what comes back.
     */
    ghost function Wires(k: Key): (w: Wiring)
      ensures |w| == |nodes| && forall d :: 0 <= d < |w| ==> Shown(k, d, w[d])
    {
      seq(|nodes|, d requires 0 <= d < |nodes| => PortsFor(k, d))
    }

    ghost function PortsFor(k: Key, d: nat): (ports: seq<Port>)
      requires d < |nodes|
      ensures Shown(k, d, ports)
    {
      seq(|nodes[d].ports|, i requires 0 <= i < |nodes[d].ports| =>
        if ToItself(k, d, nodes[d].ports[i]) then Outside else nodes[d].ports[i])
    }

    ghost predicate Shown(k: Key, d: nat, ports: seq<Port>)
      requires d < |nodes|
    {
      |ports| == |nodes[d].ports| &&
      forall i :: 0 <= i < |ports| ==>
        ports[i] == if ToItself(k, d, nodes[d].ports[i]) then Outside else nodes[d].ports[i]
    }

    predicate ToItself(k: Key, d: nat, port: Port) {
      !k.Interface? && port.Port? && port.node == d
    }

    ghost predicate Valid() {
      AllConnected() && forall a, b :: 0 <= a < b < |nodes| ==> nodes[a] != nodes[b]
    }

    ghost predicate AllConnected() {
      forall d, i :: 0 <= d < |nodes| && 0 <= i < |nodes[d].ports| ==> BothEnds(d, i)
    }

    ghost predicate BothEnds(d: nat, i: nat)
      requires d < |nodes| && i < |nodes[d].ports|
    {
      nodes[d].ports[i].Port? ==>
        var e, j := nodes[d].ports[i].node, nodes[d].ports[i].gate;
        e < |nodes| && (e != d || j != i) && j < |nodes[e].ports| && nodes[e].ports[j] == Port(d, i)
    }

    lemma WiresConnected(k: Key)
      requires Valid()
      ensures Wired(Wires(k))
    {
      var w := Wires(k);
      forall d: nat, i: nat | d < |w| && i < |w[d]| ensures Connected(w, d, i) {
        assert Shown(k, d, w[d]) && BothEnds(d, i);
        if w[d][i].Port? {
          assert Shown(k, w[d][i].node, w[w[d][i].node]);
        }
      }
    }

    /** The entries of all dispatchers for one key. */
    ghost function Entries(k: Key): Table
      reads nodes`gateIndex
    {
      map d: nat | d < |nodes| && k in nodes[d].gateIndex :: nodes[d].gateIndex[k]
    }

    /** The entries of all dispatchers for other keys. */
    ghost function Others(k: Key): map<nat, map<Key, nat>>
      reads nodes`gateIndex
    {
      map d: nat | d < |nodes| :: nodes[d].gateIndex - {k}
    }

    // ---------- guards against registering twice ----------

    ghost predicate Guarded(d: nat, k: Key)
      requires d < |nodes|
      reads nodes`registeringProtocol, nodes`registeringAny
    {
      !k.Interface? && nodes[d].IsGuarded(k)
    }

    /** The guards are up at the dispatchers on the path, and for this registration. */
    ghost predicate Guards(k: Key, path: seq<nat>)
      reads nodes`registeringProtocol, nodes`registeringAny
    {
      forall d: nat :: d < |nodes| ==> GuardAt(k, path, d)
    }

    ghost predicate GuardAt(k: Key, path: seq<nat>, d: nat)
      requires d < |nodes|
      reads nodes`registeringProtocol, nodes`registeringAny
    {
      !k.Interface? ==>
        (Guarded(d, k) <==> d in path) &&
        (k.protocol != -1 && Guarded(d, k) ==> nodes[d].registeringProtocol == Some(k.protocol))
    }

    /** The guards of all dispatchers, against one protocol and against any of them. */
    ghost function Ones(): map<nat, Option<int>>
      reads nodes`registeringProtocol
    {
      map d: nat | d < |nodes| :: nodes[d].registeringProtocol
    }

    ghost function Anys(): map<nat, bool>
      reads nodes`registeringAny
    {
      map d: nat | d < |nodes| :: nodes[d].registeringAny
    }

    /** The guards that a registration for the key has nothing to do with. */
    ghost function OtherGuards(k: Key): (map<nat, Option<int>>, map<nat, bool>)
      reads nodes`registeringProtocol, nodes`registeringAny
    {
      (if k.Interface? || k.protocol == -1 then Ones() else map[],
       if k.Interface? || k.protocol != -1 then Anys() else map[])
    }

    /** After an error the guards stay up at the dispatchers on the path, and at those that have gone on from there. */
    ghost predicate LeftUp(k: Key, path: seq<nat>)
      reads nodes`registeringProtocol, nodes`registeringAny
    {
      exists up: seq<nat> :: path <= up && Guards(k, up)
    }

    lemma LeftUpHere(k: Key, path: seq<nat>)
      ensures Guards(k, path) ==> LeftUp(k, path)
    {
      assert path <= path;
    }

    lemma LeftUpBefore(k: Key, path: seq<nat>, d: nat)
      ensures LeftUp(k, path + [d]) ==> LeftUp(k, path)
    {
      if LeftUp(k, path + [d]) {
        var up: seq<nat> :| path + [d] <= up && Guards(k, up);
        assert path <= path + [d] <= up;
      }
    }

    lemma LeftUpMeans(k: Key, d: nat)
      requires LeftUp(k, [d]) && d < |nodes| && !k.Interface?
      ensures Guarded(d, k) && !Guards(k, [])
    {
      var up: seq<nat> :| [d] <= up && Guards(k, up);
      assert up[0] == d && GuardAt(k, up, d);
      assert Guards(k, []) ==> GuardAt(k, [], d);
    }

    method SetEntry(d: nat, k: Key, gate: nat)
      requires Valid() && d < |nodes|
      modifies nodes`gateIndex
      ensures Entries(k) == old(Entries(k))[d := gate]
      ensures Others(k) == old(Others(k))
    {
      ghost var m := nodes[d].gateIndex;
      nodes[d].gateIndex := nodes[d].gateIndex[k := gate];
      assert nodes[d].gateIndex - {k} == m - {k};
    }

    /** In a flood the guards are up for its own key only. */
    method Enter(d: nat, k: Key, ghost path: seq<nat>) returns (ok: bool, dropped: bool)
      requires Valid() && d < |nodes| && Guards(k, path) && !k.Interface?
      modifies nodes`registeringProtocol, nodes`registeringAny
      ensures ok && (dropped <==> d in path)
      ensures Guards(k, if dropped then path else path + [d])
      ensures OtherGuards(k) == old(OtherGuards(k))
    {
      assert GuardAt(k, path, d);
      ok, dropped := nodes[d].RaiseGuard(k);
      ghost var now := if dropped then path else path + [d];
      forall e: nat | e < |nodes| ensures GuardAt(k, now, e) {
        assert old(GuardAt(k, path, e));
      }
    }

    method Leave(d: nat, k: Key, ghost path: seq<nat>)
      requires Valid() && d < |nodes| && Guards(k, path + [d]) && d !in path && !k.Interface?
      modifies nodes`registeringProtocol, nodes`registeringAny
      ensures Guards(k, path) && OtherGuards(k) == old(OtherGuards(k))
    {
      if k.protocol == -1 {
        nodes[d].registeringAny := false;
      } else {
        nodes[d].registeringProtocol := None;
      }
      forall e: nat | e < |nodes| ensures GuardAt(k, path, e) {
        assert old(GuardAt(k, path + [d], e));
      }
    }

    // ---------- floods ----------

    ghost function Unreached(order: seq<nat>): nat {
      if |order| <= |nodes| then |nodes| - |order| else 0
    }

    lemma FewerUnreached(o: seq<nat>, order: seq<nat>)
      requires o <= order
      ensures Unreached(order) <= Unreached(o)
    {
    }

    /** A dispatcher without an entry is one more than those that have one. */
    lemma RoomFor(order: seq<nat>, d: nat)
      requires d < |nodes| && d !in order && (forall x :: x in order ==> x < |nodes|)
      requires forall a, b :: 0 <= a < b < |order| ==> order[a] != order[b]
      ensures |order| < |nodes|
    {
      AtMost(order + [d], |nodes|);
    }

    /** What a tree says of an arriving registration. */
    ghost predicate Expected(k: Key, final: Table, full: seq<nat>, root: nat, g: nat, t: Table, s: Stack, d: nat,
                             gate: nat) {
      IsTree(Wires(k), root, g, final, full) && Agrees(t, final) && d in final &&
      (final[d] == gate || (!k.Interface? && d in s.path))
    }

    ghost predicate FloodOf(k: Key, root: nat, g: nat, order: seq<nat>, s: Stack)
      reads nodes`gateIndex
    {
      Valid() && root < |nodes| && g < |nodes[root].ports| && nodes[root].ports[g] == Outside &&
      Flooding(Wires(k), root, g, Entries(k), order, s)
    }

    lemma OrderInNetwork(k: Key, root: nat, g: nat, order: seq<nat>, s: Stack, d: nat)
      requires FloodOf(k, root, g, order, s) && d < |nodes| && d !in Entries(k)
      ensures |order| < |nodes| && d !in order && d !in s.path
    {
      forall x | x in order ensures x < |nodes| {
        assert x in Entries(k);
      }
      RoomFor(order, d);
    }

    /**
     * A registration arrives at gate `gate` of dispatcher `d`. False if it is registered there at another gate; then
     * the exception ends everything. In a tree that does not happen. Services and protocols are guarded against
     * registrations that come back while they are being forwarded; these are dropped.
     */
    method HandleRegister(d: nat, k: Key, gate: nat, ghost root: nat, ghost g: nat, ghost o: seq<nat>, ghost s: Stack,
                          ghost final: Table, ghost full: seq<nat>)
      returns (ok: bool, ghost order: seq<nat>)
      requires FloodOf(k, root, g, o, s) && d < |nodes| && Guards(k, s.path)
      requires Arrives(Wires(k), root, g, Entries(k), s, d, gate) || (!k.Interface? && d in s.path)
      modifies nodes`gateIndex, nodes`registeringProtocol, nodes`registeringAny
      ensures Hops(Wires(k), root, g, Entries(k), order)
      ensures Others(k) == old(Others(k)) && OtherGuards(k) == old(OtherGuards(k))
      ensures ok ==> FloodOf(k, root, g, order, s) && Guards(k, s.path) && o <= order
      ensures ok ==> d in Entries(k) && Agrees(old(Entries(k)), Entries(k))
      ensures ok ==> Entries(k)[d] == gate || (!k.Interface? && d in s.path)
      ensures old(Expected(k, final, full, root, g, Entries(k), s, d, gate)) ==> ok && Agrees(Entries(k), final)
      ensures !ok ==> LeftUp(k, s.path + [d])
      ensures old(d in Entries(k) && d !in s.path) ==>
        Entries(k) == old(Entries(k)) && (ok <==> old(Entries(k))[d] == gate)
      decreases Unreached(o), 2
    {
      order := o;
      if !k.Interface? {
        var dropped;
        ok, dropped := Enter(d, k, s.path);
        if dropped {
          return;
        }
      }
      hide *;
      ForInterfaces(k, s.path, s.path + [d]);
      ok, order := Arrive(d, k, gate, root, g, o, s, final, full);
      ForInterfaces(k, s.path + [d], s.path);
      if ok && !k.Interface? {
        Leave(d, k, s.path);
      }
    }

    /** Behind the guard. */
    method Arrive(d: nat, k: Key, gate: nat, ghost root: nat, ghost g: nat, ghost o: seq<nat>, ghost s: Stack,
                  ghost final: Table, ghost full: seq<nat>)
      returns (ok: bool, ghost order: seq<nat>)
      requires FloodOf(k, root, g, o, s) && Arrives(Wires(k), root, g, Entries(k), s, d, gate)
      requires Guards(k, s.path + [d]) && (k.Interface? || d !in s.path)
      modifies nodes`gateIndex, nodes`registeringProtocol, nodes`registeringAny
      ensures Hops(Wires(k), root, g, Entries(k), order)
      ensures Others(k) == old(Others(k)) && OtherGuards(k) == old(OtherGuards(k))
      ensures ok ==> FloodOf(k, root, g, order, s) && Guards(k, s.path + [d]) && o <= order
      ensures ok ==> d in Entries(k) && Entries(k)[d] == gate && Agrees(old(Entries(k)), Entries(k))
      ensures old(Expected(k, final, full, root, g, Entries(k), s, d, gate)) ==> ok && Agrees(Entries(k), final)
      ensures !ok ==> LeftUp(k, s.path + [d])
      ensures old(d in Entries(k)) ==> Entries(k) == old(Entries(k)) && (ok <==> old(Entries(k))[d] == gate)
      decreases Unreached(o), 1
    {
      order := o;
      FloodHops(k, root, g, o, s);
      if k in nodes[d].gateIndex {
        ok := nodes[d].gateIndex[k] == gate;
        LeftUpHere(k, s.path + [d]);
      } else {
        ok, order := TakeEntry(d, k, gate, root, g, o, s, final, full);
      }
    }

    /** Interface registrations are not guarded. */
    lemma ForInterfaces(k: Key, p: seq<nat>, q: seq<nat>)
      ensures k.Interface? ==> (Guards(k, p) <==> Guards(k, q))
    {
      if k.Interface? {
        forall d: nat | d < |nodes| ensures GuardAt(k, p, d) && GuardAt(k, q, d) {
        }
      }
    }

    /** A dispatcher without an entry takes one, then forwards to all gates. */
    method TakeEntry(d: nat, k: Key, gate: nat, ghost root: nat, ghost g: nat, ghost o: seq<nat>, ghost s: Stack,
                     ghost final: Table, ghost full: seq<nat>)
      returns (ok: bool, ghost order: seq<nat>)
      requires FloodOf(k, root, g, o, s) && Arrives(Wires(k), root, g, Entries(k), s, d, gate) && d !in Entries(k)
      requires Guards(k, s.path + [d])
      modifies nodes`gateIndex, nodes`registeringProtocol, nodes`registeringAny
      ensures Hops(Wires(k), root, g, Entries(k), order)
      ensures Others(k) == old(Others(k)) && OtherGuards(k) == old(OtherGuards(k))
      ensures ok ==> FloodOf(k, root, g, order, s) && Guards(k, s.path + [d]) && o <= order
      ensures ok ==> d in Entries(k) && Entries(k)[d] == gate && Agrees(old(Entries(k)), Entries(k))
      ensures old(Expected(k, final, full, root, g, Entries(k), s, d, gate)) ==> ok && Agrees(Entries(k), final)
      ensures !ok ==> LeftUp(k, s.path + [d])
      decreases Unreached(o), 0
    {
      hide *;
      ghost var t, tree := Entries(k), Expected(k, final, full, root, g, Entries(k), s, d, gate);
      BeforeEntry(k, final, full, root, g, o, s, d, gate);
      Begin(d, k, gate, root, g, o, s);
      ok, order := ForwardAll(d, k, root, g, o + [d], s, final, full, tree);
      EntryKept(t, d, gate, Entries(k));
      if ok {
        FinishFlood(k, root, g, order, s, d);
      }
    }

    lemma BeforeEntry(k: Key, final: Table, full: seq<nat>, root: nat, g: nat, o: seq<nat>, s: Stack, d: nat, gate: nat)
      requires FloodOf(k, root, g, o, s) && Arrives(Wires(k), root, g, Entries(k), s, d, gate) && d !in Entries(k)
      ensures d < |nodes| && d !in s.path && Unreached(o + [d]) < Unreached(o)
      ensures Expected(k, final, full, root, g, Entries(k), s, d, gate) ==>
        Agrees(Entries(k)[d := gate], final) && IsTree(Wires(k), root, g, final, full)
    {
      OrderInNetwork(k, root, g, o, s, d);
      hide FloodOf, IsTree;
    }

    /** The entry, with which a dispatcher starts forwarding. */
    method Begin(d: nat, k: Key, gate: nat, ghost root: nat, ghost g: nat, ghost o: seq<nat>, ghost s: Stack)
      requires FloodOf(k, root, g, o, s) && Arrives(Wires(k), root, g, Entries(k), s, d, gate) && d !in Entries(k)
      modifies nodes`gateIndex
      ensures Others(k) == old(Others(k)) && Entries(k) == old(Entries(k))[d := gate]
      ensures FloodOf(k, root, g, o + [d], Pushed(s, d, 0)) && AtGate(Wires(k), Entries(k), Pushed(s, d, 0), d, 0)
    {
      Start(Wires(k), root, g, Entries(k), o, s, d, gate);
      SetEntry(d, k, gate);
    }

    lemma FloodHops(k: Key, root: nat, g: nat, order: seq<nat>, s: Stack)
      requires FloodOf(k, root, g, order, s)
      ensures Hops(Wires(k), root, g, Entries(k), order)
    {
    }

    /** Forwards the registration to all gates in turn. */
    method ForwardAll(d: nat, k: Key, ghost root: nat, ghost g: nat, ghost o: seq<nat>, ghost s: Stack,
                      ghost final: Table, ghost full: seq<nat>, ghost tree: bool)
      returns (ok: bool, ghost order: seq<nat>)
      requires d < |nodes| && FloodOf(k, root, g, o, Pushed(s, d, 0)) &&
        AtGate(Wires(k), Entries(k), Pushed(s, d, 0), d, 0)
      requires Guards(k, s.path + [d])
      requires tree ==> Agrees(Entries(k), final) && IsTree(Wires(k), root, g, final, full)
      modifies nodes`gateIndex, nodes`registeringProtocol, nodes`registeringAny
      ensures Hops(Wires(k), root, g, Entries(k), order)
      ensures Others(k) == old(Others(k)) && OtherGuards(k) == old(OtherGuards(k))
      ensures ok ==> FloodOf(k, root, g, order, Pushed(s, d, |nodes[d].ports|)) && Guards(k, s.path + [d]) && o <= order
      ensures ok ==> AtGate(Wires(k), Entries(k), Pushed(s, d, |nodes[d].ports|), d, |nodes[d].ports|)
      ensures ok ==> Agrees(old(Entries(k)), Entries(k))
      ensures tree ==> ok && Agrees(Entries(k), final)
      ensures !ok ==> LeftUp(k, s.path + [d])
      decreases Unreached(o), 4
    {
      hide *;
      ok, order := true, o;
      FloodHops(k, root, g, o, Pushed(s, d, 0));
      AgreesItself(Entries(k));
      var i := 0;
      while i < |nodes[d].ports| && ok
        invariant i <= |nodes[d].ports| && Hops(Wires(k), root, g, Entries(k), order)
        invariant Others(k) == old(Others(k)) && OtherGuards(k) == old(OtherGuards(k))
        invariant ok ==>
          FloodOf(k, root, g, order, Pushed(s, d, i)) && AtGate(Wires(k), Entries(k), Pushed(s, d, i), d, i)
        invariant ok ==> Guards(k, s.path + [d]) && o <= order && Agrees(old(Entries(k)), Entries(k))
        invariant tree ==> ok && Agrees(Entries(k), final)
        invariant !ok ==> LeftUp(k, s.path + [d])
        decreases |nodes[d].ports| - i
      {
        PushedPath(s, d, i);
        PushedAdvanced(s, d, i);
        ghost var before := Entries(k);
        FewerUnreached(o, order);
        ok, order := ForwardTo(d, i, k, root, g, order, Pushed(s, d, i), final, full, tree);
        AgreesTwice(old(Entries(k)), before, Entries(k));
        i := i + 1;
      }
    }

    lemma FinishFlood(k: Key, root: nat, g: nat, order: seq<nat>, s: Stack, d: nat)
      requires d < |nodes| && FloodOf(k, root, g, order, Pushed(s, d, |nodes[d].ports|))
      requires AtGate(Wires(k), Entries(k), Pushed(s, d, |nodes[d].ports|), d, |nodes[d].ports|) && d !in s.path
      ensures FloodOf(k, root, g, order, s)
    {
      var n := |nodes[d].ports|;
      Finish(Wires(k), root, g, Entries(k), order, Pushed(s, d, n), d);
      PoppedPushed(s, d, n);
      Restored(Wires(k), root, g, Entries(k), order, Popped(Pushed(s, d, n)), s);
    }

    /**
     * Forwards the registration to what is connected to gate `i`, if that is a dispatcher; that of an interface not to
     * where it came from.
     */
    method ForwardTo(d: nat, i: nat, k: Key, ghost root: nat, ghost g: nat, ghost o: seq<nat>, ghost s: Stack,
                     ghost final: Table, ghost full: seq<nat>, ghost tree: bool)
      returns (ok: bool, ghost order: seq<nat>)
      requires FloodOf(k, root, g, o, s) && d < |nodes| && AtGate(Wires(k), Entries(k), s, d, i) && i < |nodes[d].ports|
      requires Guards(k, s.path)
      requires tree ==> Agrees(Entries(k), final) && IsTree(Wires(k), root, g, final, full)
      modifies nodes`gateIndex, nodes`registeringProtocol, nodes`registeringAny
      ensures Hops(Wires(k), root, g, Entries(k), order)
      ensures Others(k) == old(Others(k)) && OtherGuards(k) == old(OtherGuards(k))
      ensures ok ==> FloodOf(k, root, g, order, Advanced(s, d, i + 1)) && Guards(k, s.path) && o <= order
      ensures ok ==> AtGate(Wires(k), Entries(k), Advanced(s, d, i + 1), d, i + 1)
      ensures ok ==> Agrees(old(Entries(k)), Entries(k))
      ensures tree ==> ok && Agrees(Entries(k), final)
      ensures !ok ==> LeftUp(k, s.path)
      decreases Unreached(o), 3
    {
      ok, order := true, o;
      match nodes[d].ports[i] {
        case Outside =>
        case Port(e, j) =>
          if tree && !ToItself(k, d, nodes[d].ports[i]) {
            TreeGate(Wires(k), root, g, final, full, Entries(k), order, s, d, i);
          }
          assert BothEnds(d, i) && Shown(k, d, Wires(k)[d]) && Shown(k, e, Wires(k)[e]);
          if k.Interface? && nodes[d].gateIndex[k] == i {
            BackGate(Wires(k), root, g, Entries(k), order, s, d, i);
          } else {
            ok, order := HandleRegister(e, k, j, root, g, order, s, final, full);
            LeftUpBefore(k, s.path, e);
          }
      }
      if ok {
        Next(Wires(k), root, g, Entries(k), order, s, d, i);
      }
    }

    // ---------- a whole registration, and packets that follow it ----------

    /** What a registration that has succeeded leaves: entries all over a tree. */
    ghost predicate Registered(k: Key)
      reads nodes`gateIndex
    {
      exists root: nat, g: nat, order: seq<nat> :: RegisteredBy(k, root, g, order)
    }

    ghost predicate RegisteredBy(k: Key, root: nat, g: nat, order: seq<nat>)
      reads nodes`gateIndex
    {
      root < |nodes| && g < |nodes[root].ports| && nodes[root].ports[g] == Outside &&
      IsTree(Wires(k), root, g, Entries(k), order)
    }

    /**
     * Something outside, connected to gate `g` of `root`, registers. The first time this succeeds exactly if the
     * dispatchers connected to `root` form a tree, that is if there is no circuit among them; then all of them have
     * next hops towards `root`. Later it succeeds exactly if it is the same gate. If it fails, the entries are
     * consistent, and the guards stay up.
     */
    method Register(root: nat, k: Key, g: nat) returns (ok: bool, ghost order: seq<nat>)
      requires Valid() && root < |nodes| && g < |nodes[root].ports| && nodes[root].ports[g] == Outside
      requires Guards(k, []) && (Entries(k) == map[] || (root in Entries(k) && Registered(k)))
      modifies nodes`gateIndex, nodes`registeringProtocol, nodes`registeringAny
      ensures ok <==> if old(root in Entries(k)) then old(Entries(k))[root] == g else Tree(Wires(k), root, g)
      ensures old(root !in Entries(k)) ==> (ok <==> NoCircuit(Wires(k), root))
      ensures ok ==> Registered(k) && Guards(k, [])
      ensures ok && old(root !in Entries(k)) ==> RegisteredBy(k, root, g, order)
      ensures if old(root in Entries(k)) then Entries(k) == old(Entries(k))
        else Hops(Wires(k), root, g, Entries(k), order)
      ensures !k.Interface? ==> (ok <==> Guards(k, [])) && (ok <==> !Guarded(root, k))
      ensures !ok ==> LeftUp(k, [root])
      ensures Others(k) == old(Others(k)) && OtherGuards(k) == old(OtherGuards(k))
    {
      ghost var root0, g0, order0, s := root, g, [], Stack([], map[]);
      ghost var final, full := map[], [];
      WiresConnected(k);
      assert Shown(k, root, Wires(k)[root]);
      TreeIffNoCircuit(Wires(k), root, g);
      hide NoCircuit;
      if root in Entries(k) {
        root0, g0, order0 :| RegisteredBy(k, root0, g0, order0);
        Idle(Wires(k), root0, g0, Entries(k), order0);
      } else if Tree(Wires(k), root, g) {
        final, full :| IsTree(Wires(k), root, g, final, full);
      }
      assert Entries(k) == map[] ==> Sent(Wires(k), map[], s, root) == 0;
      assert FloodOf(k, root0, g0, order0, s);
      ok, order := HandleRegister(root, k, g, root0, g0, order0, s, final, full);
      assert [] + [root] == [root];
      if !ok && !k.Interface? {
        LeftUpMeans(k, root);
      }
      if ok {
        assert GuardAt(k, [], root);
        Finished(Wires(k), root0, g0, Entries(k), order, s);
        assert RegisteredBy(k, root0, g0, order);
      }
    }

    /** The entries for another key are among those that stay. */
    lemma EntriesOfOther(k: Key)
      ensures forall x: Key :: x != k ==> Entries(x) == Picked(Others(k), x)
    {
    }

    ghost function Picked(m: map<nat, map<Key, nat>>, k: Key): Table {
      map d: nat | d in m && k in m[d] :: m[d][k]
    }

    /** No guard is up. */
    ghost predicate AllDown()
      reads nodes`registeringProtocol, nodes`registeringAny
    {
      forall d: nat :: d < |nodes| ==> nodes[d].registeringProtocol == None && !nodes[d].registeringAny
    }

    lemma DownForAll(k: Key)
      ensures AllDown() ==> Guards(k, [])
    {
      if AllDown() {
        forall d: nat | d < |nodes| ensures GuardAt(k, [], d) {
        }
      }
    }

    /** With the guards down that a registration uses, and the others as they were. */
    lemma DownAgain(k: Key, o: (map<nat, Option<int>>, map<nat, bool>))
      requires Guards(k, []) && OtherGuards(k) == o
      requires k.Interface? || k.protocol == -1 ==> NoneUp(o.0)
      requires k.Interface? || k.protocol != -1 ==> NotUp(o.1)
      ensures AllDown()
    {
      forall d: nat | d < |nodes| ensures nodes[d].registeringProtocol == None && !nodes[d].registeringAny {
        assert GuardAt(k, [], d);
        assert d in Ones() && Ones()[d] == nodes[d].registeringProtocol;
        assert d in Anys() && Anys()[d] == nodes[d].registeringAny;
      }
    }

    ghost predicate NoneUp(m: map<nat, Option<int>>) {
      forall d :: d in m ==> m[d] == None
    }

    ghost predicate NotUp(m: map<nat, bool>) {
      forall d :: d in m ==> !m[d]
    }

    lemma DownBefore(k: Key)
      requires AllDown()
      ensures k.Interface? || k.protocol == -1 ==> NoneUp(OtherGuards(k).0)
      ensures k.Interface? || k.protocol != -1 ==> NotUp(OtherGuards(k).1)
    {
    }

    /**
     * Registers services, protocols, any of them and interfaces one after the other: registrations do not get into each
     * other's way. They all succeed if and only if no circuit is in the way of any; then all have their entries.
     */
    method RegisterAll(root: nat, g: nat, keys: seq<Key>) returns (ok: bool)
      requires Valid() && root < |nodes| && g < |nodes[root].ports| && nodes[root].ports[g] == Outside
      requires Distinct(keys) && AllDown() && forall k :: k in keys ==> Entries(k) == map[]
      modifies nodes`gateIndex, nodes`registeringProtocol, nodes`registeringAny
      ensures ok <==> forall k :: k in keys ==> NoCircuit(Wires(k), root)
      ensures ok ==> AllDown() && forall k :: k in keys ==> Spanned(k, root, g, Entries(k))
    {
      hide *;
      ok := true;
      var i := 0;
      while i < |keys| && ok
        invariant i <= |keys|
        invariant ok ==> AllDown() && forall j :: i <= j < |keys| ==> Entries(keys[j]) == map[]
        invariant ok ==> forall j :: 0 <= j < i ==>
          Spanned(keys[j], root, g, Entries(keys[j])) && NoCircuit(Wires(keys[j]), root)
        invariant !ok ==> i > 0 && !NoCircuit(Wires(keys[i - 1]), root)
        decreases |keys| - i
      {
        ok := RegisterNext(root, g, keys, i);
        i := i + 1;
      }
    }

    /** The entries lead from all that is connected to gate `g` of `root`. */
    ghost predicate Spanned(k: Key, root: nat, g: nat, t: Table) {
      exists order: seq<nat> :: IsTree(Wires(k), root, g, t, order)
    }

    lemma NowSpanned(k: Key, root: nat, g: nat, order: seq<nat>)
      requires RegisteredBy(k, root, g, order)
      ensures Spanned(k, root, g, Entries(k))
    {
    }

    method RegisterNext(root: nat, g: nat, keys: seq<Key>, i: nat) returns (ok: bool)
      requires Valid() && root < |nodes| && g < |nodes[root].ports| && nodes[root].ports[g] == Outside
      requires Distinct(keys) && i < |keys| && AllDown()
      requires forall j :: i <= j < |keys| ==> Entries(keys[j]) == map[]
      requires forall j :: 0 <= j < i ==> Spanned(keys[j], root, g, Entries(keys[j]))
      modifies nodes`gateIndex, nodes`registeringProtocol, nodes`registeringAny
      ensures ok <==> NoCircuit(Wires(keys[i]), root)
      ensures ok ==> AllDown() && forall j :: i < j < |keys| ==> Entries(keys[j]) == map[]
      ensures ok ==> forall j :: 0 <= j < i + 1 ==> Spanned(keys[j], root, g, Entries(keys[j]))
    {
      hide Guards, Registered, RegisteredBy, Hops, NoCircuit, Tree, LeftUp, AllDown, Picked, Others, OtherGuards,
           Entries, Spanned;
      var k := keys[i];
      DownForAll(k);
      DownBefore(k);
      EntriesOfOther(k);
      ghost var others, guards := Others(k), OtherGuards(k);
      ghost var order;
      ok, order := Register(root, k, g);
      EntriesOfOther(k);
      if ok {
        DownAgain(k, guards);
        NowSpanned(k, root, g, order);
      }
    }

    /** For instance, it fails in a circle of three dispatchers, and the guard of the first one stays up. */
    static method RegisterInCircle(k: Key) returns (n: Network, ok: bool)
      ensures fresh(n) && !ok && |n.nodes| == 3 && (!k.Interface? ==> n.Guarded(0, k))
    {
      var ports := Three();
      var a := new MessageDispatcher(ports[0]);
      var b := new MessageDispatcher(ports[1]);
      var c := new MessageDispatcher(ports[2]);
      n := new Network([a, b, c]);
      n.AsThree(k);
      Triangle();
      hide Wired, Tree, NoCircuit;
      assert n.Entries(k) == map[];
      ghost var order;
      ok, order := n.Register(0, k, 0);
    }

    lemma AsThree(k: Key)
      requires |nodes| == 3 && forall d :: 0 <= d < 3 ==> nodes[d].ports == Three()[d]
      requires nodes[0] != nodes[1] && nodes[0] != nodes[2] && nodes[1] != nodes[2]
      ensures Valid() && Wires(k) == Three()
    {
      var w := Wires(k);
      forall d | 0 <= d < 3 ensures w[d] == Three()[d] {
        assert Shown(k, d, w[d]);
      }
    }

    /**
     * Packets go by the entries for `k` if it is their own key, or if no dispatcher has one for that and `k`
     * is for any.
     */
    ghost predicate GoesBy(packet: Key, k: Key)
      reads nodes`gateIndex
    {
      packet == k ||
      (!packet.Interface? && k == packet.(protocol := -1) &&
        forall d :: 0 <= d < |nodes| ==> packet !in nodes[d].gateIndex)
    }

    /** A packet sent on by lookup after lookup arrives at what has registered. */
    method Deliver(start: nat, packet: Key, ghost k: Key, ghost root: nat, ghost g: nat, ghost order: seq<nat>)
      returns (d: nat, gate: nat)
      requires Valid() && start in Entries(k) && GoesBy(packet, k) && Hops(Wires(k), root, g, Entries(k), order)
      requires root < |nodes| && g < |nodes[root].ports| && nodes[root].ports[g] == Outside
      ensures d == root && gate == g
    {
      hide Hops;
      d := start;
      AtPosition(k, root, g, order, d);
      gate := nodes[d].LookUp(packet).value;
      while nodes[d].ports[gate].Port?
        invariant d < |nodes| && d in Entries(k) && d in order && gate == Entries(k)[d] && gate < |nodes[d].ports|
        invariant nodes[d].ports[gate].Outside? ==> d == root
        decreases Position(order, d)
      {
        AtPosition(k, root, g, order, d);
        d := nodes[d].ports[gate].node;
        AtPosition(k, root, g, order, d);
        gate := nodes[d].LookUp(packet).value;
      }
      AtPosition(k, root, g, order, d);
      RootEntry(k, root, g, order);
    }

    lemma RootEntry(k: Key, root: nat, g: nat, order: seq<nat>)
      requires Hops(Wires(k), root, g, Entries(k), order) && root in Entries(k)
      ensures Entries(k)[root] == g
    {
    }

    lemma AtPosition(k: Key, root: nat, g: nat, order: seq<nat>, d: nat)
      requires Valid() && d in Entries(k) && Hops(Wires(k), root, g, Entries(k), order)
      requires root < |nodes| && g < |nodes[root].ports| && nodes[root].ports[g] == Outside
      ensures d < |nodes| && d in order && k in nodes[d].gateIndex
      ensures nodes[d].gateIndex[k] == Entries(k)[d] && Entries(k)[d] < |nodes[d].ports|
      ensures var p := nodes[d].ports[Entries(k)[d]];
        (p.Outside? <==> d == root) &&
        (d != root ==> p.node in Entries(k) && p.node in order && Position(order, p.node) < Position(order, d))
    {
      var b := Position(order, d);
      assert NextHop(Wires(k), Entries(k), order, b);
      if b > 0 {
        Earlier(order, b, nodes[d].ports[nodes[d].gateIndex[k]].node);
      }
      assert order[0] == root;
    }
  }
}
