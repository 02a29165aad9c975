/** The three-way handshake of IS-IS point-to-point adjacencies (section 3.2 of RFC 5303) as a
    system of any number of interfaces that exchange hellos over a network that may lose,
    duplicate, delay and reorder them, and deliver them anywhere. */
module Handshakes {
  import opened Options

  datatype Level = L1 | L2

  type MAC(==, !new) = nat

  /** An interface as its router configures it. */
  datatype Config = Config(mac: MAC, systemID: nat, circuitID: nat, level1: bool, level2: bool)

  datatype AdjacencyState = Up | Initializing | Down

  datatype Neighbor = Neighbor(systemID: nat, circuitID: nat, state: AdjacencyState)

  type Key = (Level, MAC)

  type Neighbors = map<Key, Neighbor>

  /** A point-to-point hello. Without a neighbor the last two fields are zero. */
  datatype Hello = Hello(src: MAC, systemID: nat, circuitID: nat, level1: bool, level2: bool,
                         neighborSystemID: nat, neighborCircuitID: nat)

  type Port(==, !new) = nat

  type Network = map<Port, Config>

  /** `sent` and `received` are the history of all hellos. */
  datatype State = State(neighbors: map<Port, Neighbors>, sent: set<Hello>, received: set<(Port, Hello)>)

  // ---------------------------------------------------------------- what an interface does

  function OnLevel(ns: Neighbors, level: Level): (r: set<Key>) {
    set k | k in ns && k.0 == level
  }

  /** The neighbor a hello speaks about: the only one on level 1, else the only one on level 2. */
  ghost predicate IsP2PNeighbor(ns: Neighbors, n: Option<Neighbor>) {
    if |OnLevel(ns, L1)| == 1 then exists k :: k in OnLevel(ns, L1) && n == Some(ns[k])
    else if |OnLevel(ns, L2)| == 1 then exists k :: k in OnLevel(ns, L2) && n == Some(ns[k])
    else n == None
  }

  function P2PHello(c: Config, n: Option<Neighbor>): (h: Hello) {
    if n.None? then Hello(c.mac, c.systemID, c.circuitID, c.level1, c.level2, 0, 0)
    else Hello(c.mac, c.systemID, c.circuitID, c.level1, c.level2, n.value.systemID, n.value.circuitID)
  }

  /** The sender lists this very interface as its neighbor. */
  predicate ContainsSelf(c: Config, h: Hello) {
    h.neighborSystemID == c.systemID && h.neighborCircuitID == c.circuitID
  }

  /** The first hello from an address adds a neighbor; a later one that lists this interface
      brings the adjacency up, whatever its state. */
  function ProcessOnLevel(c: Config, ns: Neighbors, level: Level, h: Hello): (r: Neighbors) {
    var k := (level, h.src);
    if k !in ns then ns[k := Neighbor(h.systemID, h.circuitID, Initializing)]
    else if ContainsSelf(c, h) then ns[k := ns[k].(state := Up)]
    else ns
  }

  /** Each level's manager sees the hello if both sides run the level; `accept1` and `accept2`
      stand for the checks of areas, protocols and addresses. */
  function ProcessHello(c: Config, ns: Neighbors, h: Hello, accept1: bool, accept2: bool): (r: Neighbors) {
    var ns1 := if h.level1 && c.level1 && accept1 then ProcessOnLevel(c, ns, L1, h) else ns;
    if h.level2 && c.level2 && accept2 then ProcessOnLevel(c, ns1, L2, h) else ns1
  }

  // ---------------------------------------------------------------- steps

  datatype Step =
    | Send(p: Port, n: Option<Neighbor>)
    | Deliver(p: Port, h: Hello, accept1: bool, accept2: bool)
    | TimeOut(p: Port, k: Key)
    | Drop(p: Port, k: Key)
    | NetDown(p: Port)

  ghost predicate WellFormed(net: Network, s: State) {
    s.neighbors.Keys == net.Keys
  }

  ghost predicate Enabled(net: Network, s: State, step: Step)
    requires WellFormed(net, s)
  {
    match step
    case Send(p, n) => p in net && IsP2PNeighbor(s.neighbors[p], n)
    case Deliver(p, h, _, _) => p in net && h in s.sent
    case TimeOut(p, k) => p in net && k in s.neighbors[p] && s.neighbors[p][k].state == Up
    case Drop(p, k) => p in net && k in s.neighbors[p]  // a hello may have come in since it was down
    case NetDown(p) => p in net
  }

  ghost function Apply(net: Network, s: State, step: Step): (r: State)
    requires WellFormed(net, s) && Enabled(net, s, step)
  {
    match step
    case Send(p, n) => s.(sent := s.sent + {P2PHello(net[p], n)})
    case Deliver(p, h, accept1, accept2) =>
      s.(neighbors := s.neighbors[p := ProcessHello(net[p], s.neighbors[p], h, accept1, accept2)],
         received := s.received + {(p, h)})
    case TimeOut(p, k) =>
      s.(neighbors := s.neighbors[p := s.neighbors[p][k := s.neighbors[p][k].(state := Down)]])
    case Drop(p, k) => s.(neighbors := s.neighbors[p := s.neighbors[p] - {k}])
    case NetDown(p) =>
      s.(neighbors := s.neighbors[p := map k | k in s.neighbors[p] :: s.neighbors[p][k].(state := Down)])
  }

  function Initial(net: Network): (s: State) {
    State(map p | p in net :: map[], {}, {})
  }

  // ---------------------------------------------------------------- the invariant

  /** Interfaces are told apart by their address, and by their system and circuit ID. */
  ghost predicate Distinct(net: Network) {
    forall p, q :: p in net && q in net && p != q ==>
      && net[p].mac != net[q].mac
      && !(net[p].systemID == net[q].systemID && net[p].circuitID == net[q].circuitID)
  }

  predicate SentBy(c: Config, h: Hello) {
    h.src == c.mac && h.systemID == c.systemID && h.circuitID == c.circuitID
  }

  /** `p` has received a hello that carries these IDs. */
  ghost predicate HeardFrom(s: State, p: Port, systemID: nat, circuitID: nat) {
    exists h :: (p, h) in s.received && h in s.sent && h.systemID == systemID && h.circuitID == circuitID
  }

  ghost predicate SentOk(net: Network, s: State, h: Hello) {
    exists p :: p in net && SentBy(net[p], h) &&
      (HeardFrom(s, p, h.neighborSystemID, h.neighborCircuitID) || (h.neighborSystemID == 0 && h.neighborCircuitID == 0))
  }

  ghost predicate NeighborOk(net: Network, s: State, p: Port, k: Key)
    requires p in net && p in s.neighbors && k in s.neighbors[p]
  {
    var n := s.neighbors[p][k];
    && HeardFrom(s, p, n.systemID, n.circuitID)
    && (n.state == Up ==>
          exists h :: h in s.sent && h.src == k.1 && ContainsSelf(net[p], h))
  }

  ghost predicate Inv(net: Network, s: State) {
    && WellFormed(net, s)
    && (forall h :: h in s.sent ==> SentOk(net, s, h))
    && (forall p, k :: p in net && k in s.neighbors[p] ==> NeighborOk(net, s, p, k))
  }

  // ---------------------------------------------------------------- every step keeps it

  lemma HistoryGrows(net: Network, s: State, t: State)
    requires s.sent <= t.sent && s.received <= t.received
    ensures forall p: Port, a: nat, b: nat :: HeardFrom(s, p, a, b) ==> HeardFrom(t, p, a, b)
    ensures forall h :: SentOk(net, s, h) ==> SentOk(net, t, h)
  {
    forall p: Port, a: nat, b: nat | HeardFrom(s, p, a, b)
      ensures HeardFrom(t, p, a, b)
    {
      var h :| (p, h) in s.received && h in s.sent && h.systemID == a && h.circuitID == b;
      assert (p, h) in t.received && h in t.sent;
    }
    forall h | SentOk(net, s, h)
      ensures SentOk(net, t, h)
    {
      var p :| p in net && SentBy(net[p], h) &&
        (HeardFrom(s, p, h.neighborSystemID, h.neighborCircuitID) || (h.neighborSystemID == 0 && h.neighborCircuitID == 0));
    }
  }

  lemma SendKeepsInv(net: Network, s: State, step: Step)
    requires Inv(net, s) && Enabled(net, s, step) && step.Send?
    ensures Inv(net, Apply(net, s, step))
  {
    var t := Apply(net, s, step);
    HistoryGrows(net, s, t);
    var h := P2PHello(net[step.p], step.n);
    assert SentOk(net, t, h) by {
      if step.n.Some? {
        var k :| k in s.neighbors[step.p] && step.n == Some(s.neighbors[step.p][k]);
        assert NeighborOk(net, s, step.p, k);
      }
      assert SentBy(net[step.p], h);
    }
    forall p, k | p in net && k in t.neighbors[p]
      ensures NeighborOk(net, t, p, k)
    {
      assert NeighborOk(net, s, p, k);
    }
  }

  ghost predicate Accounted(net: Network, s: State, p: Port, k: Key, n: Neighbor)
    requires p in net
  {
    && HeardFrom(s, p, n.systemID, n.circuitID)
    && (n.state == Up ==> exists h :: h in s.sent && h.src == k.1 && ContainsSelf(net[p], h))
  }

  /** One level's processing keeps every neighbor accounted for. */
  lemma LevelKeeps(net: Network, s: State, t: State, p: Port, ns: Neighbors, level: Level, h: Hello, k: Key)
    requires p in net && (p, h) in t.received && h in t.sent
    requires k in ProcessOnLevel(net[p], ns, level, h)
    requires k in ns ==> Accounted(net, t, p, k, ns[k])
    ensures Accounted(net, t, p, k, ProcessOnLevel(net[p], ns, level, h)[k])
  {
  }

  lemma DeliverKeepsInv(net: Network, s: State, step: Step)
    requires Inv(net, s) && Enabled(net, s, step) && step.Deliver?
    ensures Inv(net, Apply(net, s, step))
  {
    var t := Apply(net, s, step);
    var p, h := step.p, step.h;
    HistoryGrows(net, s, t);
    var ns := s.neighbors[p];
    var ns1 := if h.level1 && net[p].level1 && step.accept1 then ProcessOnLevel(net[p], ns, L1, h) else ns;
    forall k | k in ns
      ensures Accounted(net, t, p, k, ns[k])
    {
      assert NeighborOk(net, s, p, k);
    }
    forall k | k in ns1
      ensures Accounted(net, t, p, k, ns1[k])
    {
      if ns1 != ns {
        LevelKeeps(net, s, t, p, ns, L1, h, k);
      }
    }
    forall q, k | q in net && k in t.neighbors[q]
      ensures NeighborOk(net, t, q, k)
    {
      if q == p {
        if h.level2 && net[p].level2 && step.accept2 {
          LevelKeeps(net, s, t, p, ns1, L2, h, k);
        }
      } else {
        assert NeighborOk(net, s, q, k);
      }
    }
  }

  /** Taking adjacencies down or forgetting them needs no new history. */
  lemma NeighborsKeepInv(net: Network, s: State, t: State, p: Port)
    requires Inv(net, s) && p in net && t == s.(neighbors := t.neighbors)
    requires t.neighbors.Keys == s.neighbors.Keys
    requires forall q :: q in net && q != p ==> t.neighbors[q] == s.neighbors[q]
    requires forall k :: k in t.neighbors[p] ==>
               k in s.neighbors[p] && (t.neighbors[p][k] == s.neighbors[p][k] ||
                                       t.neighbors[p][k] == s.neighbors[p][k].(state := Down))
    ensures Inv(net, t)
  {
    HistoryGrows(net, s, t);
    forall q, k | q in net && k in t.neighbors[q]
      ensures NeighborOk(net, t, q, k)
    {
      assert NeighborOk(net, s, q, k);
    }
  }

  lemma QuietStepKeepsInv(net: Network, s: State, step: Step)
    requires Inv(net, s) && Enabled(net, s, step) && (step.TimeOut? || step.Drop? || step.NetDown?)
    ensures Inv(net, Apply(net, s, step))
  {
    hide SentOk, NeighborOk;
    NeighborsKeepInv(net, s, Apply(net, s, step), step.p);
  }

  lemma StepKeepsInv(net: Network, s: State, step: Step)
    requires Inv(net, s) && Enabled(net, s, step)
    ensures Inv(net, Apply(net, s, step))
  {
    hide Inv, Enabled, Apply;
    match step
    case Send(_, _) => SendKeepsInv(net, s, step);
    case Deliver(_, _, _, _) => DeliverKeepsInv(net, s, step);
    case _ => QuietStepKeepsInv(net, s, step);
  }

  // ---------------------------------------------------------------- every run

  ghost predicate Steps(net: Network, s: State, t: State) {
    WellFormed(net, s) && exists step :: Enabled(net, s, step) && Apply(net, s, step) == t
  }

  ghost predicate IsRun(net: Network, run: seq<State>) {
    && run != [] && run[0] == Initial(net)
    && forall i :: 0 <= i < |run| - 1 ==> Steps(net, run[i], run[i + 1])
  }

  lemma {:induction false} RunKeepsInv(net: Network, run: seq<State>, i: nat)
    requires IsRun(net, run) && i < |run|
    ensures Inv(net, run[i])
  {
    if i > 0 {
      RunKeepsInv(net, run, i - 1);
      assert Steps(net, run[i - 1], run[(i - 1) + 1]);
      var step :| Enabled(net, run[i - 1], step) && Apply(net, run[i - 1], step) == run[i];
      StepKeepsInv(net, run[i - 1], step);
    }
  }

  /** Identities are those of one interface, so what was heard from an identity was sent by it. */
  lemma HeardFromSender(net: Network, s: State, a: Port, b: Port)
    requires Inv(net, s) && Distinct(net) && a in net && b in net
    requires HeardFrom(s, b, net[a].systemID, net[a].circuitID)
    ensures exists h :: (b, h) in s.received && h in s.sent && SentBy(net[a], h)
  {
    var g :| (b, g) in s.received && g in s.sent && g.systemID == net[a].systemID && g.circuitID == net[a].circuitID;
    assert SentOk(net, s, g);
    var origin :| origin in net && SentBy(net[origin], g);
    assert origin == a;
  }

  /** In every run, an adjacency of interface `a` with the interface `b` is up only if `b` has by
      then received a hello that `a` itself sent. The one identity for which this cannot be
      promised is system ID zero with circuit ID zero, which a hello without a neighbor carries. */
  lemma UpMeansHeard(net: Network, run: seq<State>, i: nat, a: Port, b: Port, level: Level)
    requires IsRun(net, run) && i < |run| && Distinct(net) && a in net && b in net
    requires net[a].systemID != 0 || net[a].circuitID != 0
    requires a in run[i].neighbors && (level, net[b].mac) in run[i].neighbors[a]
    requires run[i].neighbors[a][(level, net[b].mac)].state == Up
    ensures exists h :: (b, h) in run[i].received && h in run[i].sent && SentBy(net[a], h)
  {
    RunKeepsInv(net, run, i);
    var s := run[i];
    var k := (level, net[b].mac);
    assert NeighborOk(net, s, a, k);
    var h :| h in s.sent && h.src == k.1 && ContainsSelf(net[a], h);
    assert SentOk(net, s, h);
    var sender :| sender in net && SentBy(net[sender], h) &&
      (|| HeardFrom(s, sender, h.neighborSystemID, h.neighborCircuitID)
       || (h.neighborSystemID == 0 && h.neighborCircuitID == 0));
    assert sender == b;
    HeardFromSender(net, s, a, b);
  }

  lemma HelloTwice(c: Config, ns: Neighbors, h: Hello, level: Level)
    requires ContainsSelf(c, h)
    requires if level == L1 then h.level1 && c.level1 else h.level2 && c.level2
    ensures var r := ProcessHello(c, ProcessHello(c, ns, h, true, true), h, true, true);
            (level, h.src) in r && r[(level, h.src)].state == Up
  {
  }

  lemma OnlyOne(keys: set<Key>, k: Key)
    requires |keys| == 1 && k in keys
    ensures keys == {k}
  {
    assert |keys - {k}| == 0;
    assert keys == {k} + (keys - {k});
  }

  /** A hello carries the sender's own address, IDs and levels. It names the only neighbor on level 1,
      else the only one on level 2, by both IDs, and without such a neighbor it names nobody. */
  lemma HelloNames(net: Network, s: State, step: Step) returns (h: Hello)
    requires WellFormed(net, s) && Enabled(net, s, step) && step.Send?
    ensures Apply(net, s, step) == s.(sent := s.sent + {h})
    ensures h.src == net[step.p].mac && h.systemID == net[step.p].systemID && h.circuitID == net[step.p].circuitID
    ensures h.level1 == net[step.p].level1 && h.level2 == net[step.p].level2
    ensures var ns := s.neighbors[step.p];
            forall k :: k in ns && |OnLevel(ns, k.0)| == 1 && (k.0 == L1 || |OnLevel(ns, L1)| != 1) ==>
              h.neighborSystemID == ns[k].systemID && h.neighborCircuitID == ns[k].circuitID
    ensures var ns := s.neighbors[step.p];
            |OnLevel(ns, L1)| != 1 && |OnLevel(ns, L2)| != 1 ==> h.neighborSystemID == 0 && h.neighborCircuitID == 0
  {
    var ns := s.neighbors[step.p];
    h := P2PHello(net[step.p], step.n);
    forall k | k in ns && |OnLevel(ns, k.0)| == 1 && (k.0 == L1 || |OnLevel(ns, L1)| != 1)
      ensures h.neighborSystemID == ns[k].systemID && h.neighborCircuitID == ns[k].circuitID
    {
      OnlyOne(OnLevel(ns, k.0), k);
    }
  }

  /** What a delivered hello does to the neighbor at any key: it is added if the sender is new on a
      level that both run and that accepts the hello; it comes up if the sender was known there and
      the hello lists this interface by both IDs; and nothing else happens. */
  lemma HelloChanges(net: Network, s: State, step: Step, k: Key)
    requires WellFormed(net, s) && Enabled(net, s, step) && step.Deliver?
    ensures var p, h := step.p, step.h;
            var before, after := s.neighbors[p], Apply(net, s, step).neighbors[p];
            var reaches := h.src == k.1 && if k.0 == L1 then h.level1 && net[p].level1 && step.accept1
                                           else h.level2 && net[p].level2 && step.accept2;
            var listed := h.neighborSystemID == net[p].systemID && h.neighborCircuitID == net[p].circuitID;
            if k !in before
            then (k in after <==> reaches) && (reaches ==> after[k] == Neighbor(h.systemID, h.circuitID, Initializing))
            else k in after && after[k] == if reaches && listed then before[k].(state := Up) else before[k]
    ensures forall q :: q in net && q != step.p ==> Apply(net, s, step).neighbors[q] == s.neighbors[q]
  {
  }

  /** What the other steps do to a neighbor of any interface. */
  lemma QuietChanges(net: Network, s: State, step: Step, q: Port, k: Key)
    requires WellFormed(net, s) && Enabled(net, s, step) && (step.TimeOut? || step.Drop? || step.NetDown?)
    requires q in net
    ensures var before, after := s.neighbors[q], Apply(net, s, step).neighbors[q];
            && (k in after <==> k in before && !(step == Drop(q, k)))
            && (k in after ==>
                  after[k] == if step == TimeOut(q, k) || step == NetDown(q) then before[k].(state := Down) else before[k])
  {
  }

  lemma SendStep(net: Network, s: State, p: Port, n: Option<Neighbor>) returns (t: State)
    requires WellFormed(net, s) && p in net && IsP2PNeighbor(s.neighbors[p], n)
    ensures WellFormed(net, t) && Steps(net, s, t)
    ensures t == s.(sent := s.sent + {P2PHello(net[p], n)})
  {
    assert Enabled(net, s, Send(p, n));
    t := Apply(net, s, Send(p, n));
  }

  lemma DeliverStep(net: Network, s: State, p: Port, h: Hello, accept1: bool, accept2: bool) returns (t: State)
    requires WellFormed(net, s) && p in net && h in s.sent
    ensures WellFormed(net, t) && Steps(net, s, t)
    ensures t.sent == s.sent && t.received == s.received + {(p, h)}
    ensures t.neighbors == s.neighbors[p := ProcessHello(net[p], s.neighbors[p], h, accept1, accept2)]
  {
    assert Enabled(net, s, Deliver(p, h, accept1, accept2));
    t := Apply(net, s, Deliver(p, h, accept1, accept2));
  }

  predicate OnCommonLevel(c: Config, d: Config, level: Level) {
    if level == L1 then c.level1 && d.level1 else c.level2 && d.level2
  }

  /** The condition is needed in every network: an interface with both IDs zero can come up with
      any interface on a common level, although that one has heard from nobody. */
  lemma ZeroIdentityFails(net: Network, a: Port, b: Port, level: Level) returns (run: seq<State>)
    requires a in net && b in net && a != b
    requires net[a].systemID == 0 && net[a].circuitID == 0
    requires OnCommonLevel(net[a], net[b], level)
    ensures IsRun(net, run) && |run| == 4
    ensures a in run[3].neighbors && (level, net[b].mac) in run[3].neighbors[a]
    ensures run[3].neighbors[a][(level, net[b].mac)].state == Up
    ensures forall h :: (b, h) !in run[3].received
  {
    hide Steps, ProcessHello;
    var h := P2PHello(net[b], None);
    var s0 := Initial(net);
    assert OnLevel(s0.neighbors[b], L1) == {} && OnLevel(s0.neighbors[b], L2) == {};
    var s1 := SendStep(net, s0, b, None);
    var s2 := DeliverStep(net, s1, a, h, true, true);
    HelloTwice(net[a], s1.neighbors[a], h, level);
    var s3 := DeliverStep(net, s2, a, h, true, true);
    run := [s0, s1, s2, s3];
  }

  lemma NoNeighbor()
    ensures IsP2PNeighbor(map[], None)
  {
    assert OnLevel(map[], L1) == {} && OnLevel(map[], L2) == {};
  }

  /** An interface with one neighbor speaks about it. */
  lemma OnlyNeighbor(ns: Neighbors, k: Key)
    requires ns.Keys == {k}
    ensures IsP2PNeighbor(ns, Some(ns[k]))
  {
    assert OnLevel(ns, k.0) == {k};
    assert OnLevel(ns, if k.0 == L1 then L2 else L1) == {};
  }

  /** A hello that is accepted on one level from an address without a neighbor adds one. */
  lemma FirstHello(c: Config, h: Hello, level: Level)
    requires if level == L1 then h.level1 && c.level1 else h.level2 && c.level2
    ensures ProcessHello(c, map[], h, level == L1, level == L2) ==
            map[(level, h.src) := Neighbor(h.systemID, h.circuitID, Initializing)]
  {
  }

  /** One that lists the receiver brings the neighbor up. */
  lemma LaterHello(c: Config, n: Neighbor, h: Hello, level: Level)
    requires if level == L1 then h.level1 && c.level1 else h.level2 && c.level2
    requires h.neighborSystemID == c.systemID && h.neighborCircuitID == c.circuitID
    ensures ProcessHello(c, map[(level, h.src) := n], h, level == L1, level == L2) ==
            map[(level, h.src) := n.(state := Up)]
  {
  }

  function NeighborOf(c: Config, state: AdjacencyState): (n: Neighbor) {
    Neighbor(c.systemID, c.circuitID, state)
  }

  /** `a` sends a hello, `b` receives it and answers. */
  lemma Answered(net: Network, a: Port, b: Port, level: Level) returns (run: seq<State>)
    requires a in net && b in net && a != b && OnCommonLevel(net[a], net[b], level)
    ensures |run| == 4 && IsRun(net, run) && WellFormed(net, run[3])
    ensures P2PHello(net[b], Some(NeighborOf(net[a], Initializing))) in run[3].sent
    ensures run[3].neighbors[a] == map[]
    ensures run[3].neighbors[b] == map[(level, net[a].mac) := NeighborOf(net[a], Initializing)]
  {
    hide Steps, ProcessHello, IsP2PNeighbor;
    var hello := P2PHello(net[a], None);
    var s0 := Initial(net);
    NoNeighbor();
    var s1 := SendStep(net, s0, a, None);
    FirstHello(net[b], hello, level);
    var s2 := DeliverStep(net, s1, b, hello, level == L1, level == L2);
    OnlyNeighbor(s2.neighbors[b], (level, net[a].mac));
    var s3 := SendStep(net, s2, b, Some(NeighborOf(net[a], Initializing)));
    run := [s0, s1, s2, s3];
  }

  /** `a` hears the answer twice and confirms it, `b` receives that. */
  lemma Confirmed(net: Network, s3: State, a: Port, b: Port, level: Level) returns (run: seq<State>)
    requires a in net && b in net && a != b && OnCommonLevel(net[a], net[b], level) && WellFormed(net, s3)
    requires P2PHello(net[b], Some(NeighborOf(net[a], Initializing))) in s3.sent
    requires s3.neighbors[a] == map[]
    requires s3.neighbors[b] == map[(level, net[a].mac) := NeighborOf(net[a], Initializing)]
    ensures |run| == 4 && Steps(net, s3, run[0]) && forall i :: 0 <= i < 3 ==> Steps(net, run[i], run[i + 1])
    ensures WellFormed(net, run[3])
    ensures run[3].neighbors[a] == map[(level, net[b].mac) := NeighborOf(net[b], Up)]
    ensures run[3].neighbors[b] == map[(level, net[a].mac) := NeighborOf(net[a], Up)]
  {
    hide Steps, ProcessHello, IsP2PNeighbor;
    var answer := P2PHello(net[b], Some(NeighborOf(net[a], Initializing)));
    FirstHello(net[a], answer, level);
    var s4 := DeliverStep(net, s3, a, answer, level == L1, level == L2);
    LaterHello(net[a], NeighborOf(net[b], Initializing), answer, level);
    var s5 := DeliverStep(net, s4, a, answer, level == L1, level == L2);
    OnlyNeighbor(s5.neighbors[a], (level, net[b].mac));
    var s6 := SendStep(net, s5, a, Some(NeighborOf(net[b], Up)));
    var confirmation := P2PHello(net[a], Some(NeighborOf(net[b], Up)));
    LaterHello(net[b], NeighborOf(net[a], Initializing), confirmation, level);
    var s7 := DeliverStep(net, s6, b, confirmation, level == L1, level == L2);
    run := [s4, s5, s6, s7];
  }

  /** The promise is not empty: in every network any two interfaces on a common level can come up,
      each with the other. */
  lemma BothComeUp(net: Network, a: Port, b: Port, level: Level) returns (run: seq<State>)
    requires a in net && b in net && a != b && OnCommonLevel(net[a], net[b], level)
    ensures IsRun(net, run)
    ensures var s := run[|run| - 1];
            && a in s.neighbors && (level, net[b].mac) in s.neighbors[a]
            && b in s.neighbors && (level, net[a].mac) in s.neighbors[b]
            && s.neighbors[a][(level, net[b].mac)] == Neighbor(net[b].systemID, net[b].circuitID, Up)
            && s.neighbors[b][(level, net[a].mac)] == Neighbor(net[a].systemID, net[a].circuitID, Up)
  {
    hide Steps, P2PHello;
    var first := Answered(net, a, b, level);
    var second := Confirmed(net, first[3], a, b, level);
    run := first + second;
    assert run[|run| - 1] == second[3];
  }
}
