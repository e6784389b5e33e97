/** Commands relayed between networks: packets in flight among nodes that dispatch as
    MulticastHandler.cpp does, with at most one gateway per network. Packets are delivered
    in any order and may be lost; the network does not duplicate them. */
module Relay {
  import opened Hashes
  import opened Endian
  import opened Elections
  import opened Frames
  import opened Gateways

  /** The nodes with their networks, the gateway of each network that has one, and the
      gateways each gateway knows. */
  datatype World = World(nodes: seq<Address>, netOf: map<Address, nat>,
                         gatewayOf: map<nat, Address>, known: map<Address, seq<Address>>)

  predicate IsGateway(w: World, x: Address) {
    x in w.netOf && w.netOf[x] in w.gatewayOf && w.gatewayOf[w.netOf[x]] == x
  }

  function Known(w: World, x: Address): seq<Address> {
    if x in w.known then w.known[x] else []
  }

  predicate NoRepeats(xs: seq<Address>) {
    forall i, j :: 0 <= i < j < |xs| ==> xs[i] != xs[j]
  }

  lemma HeadNotInTail(xs: seq<Address>)
    requires NoRepeats(xs) && xs != []
    ensures NoRepeats(xs[1..]) && xs[0] !in xs[1..]
  {
  }

  /** Nodes are distinct; a network's gateway is one of its nodes; a table lists no node of
      the own network and none twice. What it lists need not be a gateway any more. */
  ghost predicate Sane(w: World) {
    && NoRepeats(w.nodes)
    && (forall x :: x in w.nodes <==> x in w.netOf)
    && (forall n :: n in w.gatewayOf ==> w.gatewayOf[n] in w.netOf && w.netOf[w.gatewayOf[n]] == n)
    && forall x :: x in w.known ==>
         (&& x in w.netOf
          && (forall i :: 0 <= i < |w.known[x]| && w.known[x][i] in w.netOf ==>
                w.netOf[w.known[x][i]] != w.netOf[x])
          && NoRepeats(w.known[x]))
  }

  /** A packet on its way to one node, with the sender its header resolves to. */
  datatype Packet = Packet(to: Address, sender: Address, command: byte, data: seq<byte>)

  /** A command handed to the local handlers of a node. */
  datatype Handled = Handled(at: Address, sender: Address, command: byte, data: seq<byte>)

  /** The other nodes of x's network, in node order: who receives x's multicasts. */
  function Neighbours(w: World, nodes: seq<Address>, x: Address): seq<Address> {
    if nodes == [] then []
    else (if nodes[0] != x && nodes[0] in w.netOf && x in w.netOf && w.netOf[nodes[0]] == w.netOf[x]
          then [nodes[0]] else [])
         + Neighbours(w, nodes[1..], x)
  }

  function PacketsTo(dests: seq<Address>, sender: Address, command: byte, data: seq<byte>): (ps: seq<Packet>)
    ensures |ps| == |dests|
    ensures forall i :: 0 <= i < |dests| ==> ps[i] == Packet(dests[i], sender, command, data)
  {
    seq(|dests|, i requires 0 <= i < |dests| => Packet(dests[i], sender, command, data))
  }

  /** The packets a node's datagrams become. */
  function Spread(w: World, x: Address, ds: seq<Datagram>): seq<Packet> {
    if ds == [] then []
    else
      var sender := if ds[0].sender.Some? then ds[0].sender.value else x;
      PacketsTo(if ds[0].dest.Some? then [ds[0].dest.value] else Neighbours(w, w.nodes, x),
                sender, ds[0].command, ds[0].data)
      + Spread(w, x, ds[1..])
  }

  /** A packet too large for the receiver's buffer is dropped (Frames.FrameRoundTrip). */
  predicate Readable(p: Packet) {
    p.command < NUM_COMMANDS && |p.data| <= MAX_ARGS
  }

  /** What the frame of a packet becomes at its receiver. */
  lemma ReadableIffParsed(p: Packet, endpoint: Address)
    requires p.sender != ANY_ADDRESS && |p.data| < 256
    ensures Parse(Delivered(Frame(Some(p.sender), p.command, p.data)), endpoint) ==
            if Readable(p) then Some(Message(p.sender, p.command, p.data)) else None
  {
    if p.command < NUM_COMMANDS {
      FrameRoundTrip(Some(p.sender), p.command, p.data, endpoint);
    } else {
      UnknownIsDropped(Some(p.sender), p.command, p.data, endpoint);
    }
  }

  /** A multicast without a sender is one of the node it comes from. */
  lemma SenderResolves(command: byte, data: seq<byte>, x: Address)
    requires command < NUM_COMMANDS && |data| <= MAX_ARGS
    ensures Parse(Delivered(Frame(None, command, data)), x) == Some(Message(x, command, data))
  {
    FrameRoundTrip(None, command, data, x);
  }

  /** What dispatch hands to the local handlers when the packet arrives. */
  function Dispatched(w: World, p: Packet): multiset<Handled> {
    var h := Handles(IsGateway(w, p.to), p.sender, p.command, p.data);
    if Readable(p) && h.Some? then multiset{Handled(p.to, p.sender, h.value.0, h.value.1)} else multiset{}
  }

  /** The packets that what dispatch sends becomes. */
  function Caused(w: World, p: Packet): seq<Packet> {
    if Readable(p)
    then Spread(w, p.to, Sends(IsGateway(w, p.to), Known(w, p.to), p.sender, p.command, p.data, true))
    else []
  }

  // ---- Every packet causes only packets of lower rank

  function Rank(w: World, p: Packet): nat {
    if p.command == FORWARD then 1 else if IsGateway(w, p.to) then 2 else 0
  }

  lemma {:induction false} NeighboursMeaning(w: World, nodes: seq<Address>, x: Address)
    ensures forall y :: y in Neighbours(w, nodes, x) <==>
              y in nodes && y != x && x in w.netOf && y in w.netOf && w.netOf[y] == w.netOf[x]
  {
    if nodes != [] {
      NeighboursMeaning(w, nodes[1..], x);
      assert forall y :: y in nodes <==> y == nodes[0] || y in nodes[1..];
    }
  }

  lemma {:induction false} SpreadForwards(w: World, x: Address, targets: seq<Address>, sender: Address,
                                          command: byte, args: seq<byte>)
    ensures Spread(w, x, ForwardTo(targets, sender, command, args))
         == PacketsTo(targets, sender, FORWARD, [command] + args)
    decreases |targets|
  {
    if targets != [] {
      var ds := ForwardTo(targets, sender, command, args);
      assert ds[1..] == ForwardTo(targets[1..], sender, command, args);
      SpreadForwards(w, x, targets[1..], sender, command, args);
    }
  }

  /** The two ways a packet causes others. */
  lemma CausedCases(w: World, p: Packet)
    ensures Caused(w, p) ==
            if !Readable(p) || !IsGateway(w, p.to) then []
            else if p.command == FORWARD then
              if p.data != [] && Forwardable(p.data[0])
              then PacketsTo(Neighbours(w, w.nodes, p.to), p.sender, p.data[0], p.data[1..]) else []
            else if Forwardable(p.command) && Valid(p.command, |p.data|)
              then PacketsTo(Known(w, p.to), p.sender, FORWARD, [p.command] + p.data) else []
  {
    if p.command == FORWARD {
      ForwardStops(IsGateway(w, p.to), Known(w, p.to), p.sender, p.data);
      if p.data != [] {
        var ds := Unwraps(IsGateway(w, p.to), p.sender, p.data[0], p.data[1..]);
        assert ds + [] == ds;
        if ds != [] {
          assert Spread(w, p.to, ds[1..]) == [];
        }
      }
    } else {
      var ds := Forwards(IsGateway(w, p.to), Known(w, p.to), p.sender, p.command, p.data);
      assert [] + ds == ds;
      SpreadForwards(w, p.to, Known(w, p.to), p.sender, p.command, p.data);
    }
  }

  lemma NeighboursNotGateways(w: World, g: Address)
    requires IsGateway(w, g)
    ensures forall i :: 0 <= i < |Neighbours(w, w.nodes, g)| ==> !IsGateway(w, Neighbours(w, w.nodes, g)[i])
  {
    NeighboursMeaning(w, w.nodes, g);
    var xs := Neighbours(w, w.nodes, g);
    assert forall i :: 0 <= i < |xs| ==> xs[i] in xs;
  }

  lemma CausedRanksLower(w: World, p: Packet)
    ensures forall q :: q in Caused(w, p) ==> Rank(w, q) < Rank(w, p)
  {
    CausedCases(w, p);
    if Caused(w, p) != [] && p.command == FORWARD {
      NeighboursNotGateways(w, p.to);
    }
  }

  predicate RanksBelow(w: World, ps: seq<Packet>, bound: nat) {
    forall q :: q in ps ==> Rank(w, q) < bound
  }

  /** Everything a packet will ever have handled, if all it causes is delivered. */
  function Reach(w: World, p: Packet): multiset<Handled>
    decreases Rank(w, p), 1, 0
  {
    CausedRanksLower(w, p);
    Dispatched(w, p) + ReachAll(w, Caused(w, p), Rank(w, p))
  }

  function ReachAll(w: World, ps: seq<Packet>, bound: nat): multiset<Handled>
    requires RanksBelow(w, ps, bound)
    decreases bound, 0, |ps|
  {
    if ps == [] then multiset{} else Reach(w, ps[0]) + ReachAll(w, ps[1..], bound)
  }

  /** Deliveries a packet still costs, its own included. */
  function Cost(w: World, p: Packet): (c: nat)
    ensures c >= 1
    decreases Rank(w, p), 1, 0
  {
    CausedRanksLower(w, p);
    1 + CostAll(w, Caused(w, p), Rank(w, p))
  }

  function CostAll(w: World, ps: seq<Packet>, bound: nat): nat
    requires RanksBelow(w, ps, bound)
    decreases bound, 0, |ps|
  {
    if ps == [] then 0 else Cost(w, ps[0]) + CostAll(w, ps[1..], bound)
  }

  /** Any rank is below three. */
  function ReachOf(w: World, ps: seq<Packet>): multiset<Handled> {
    ReachAll(w, ps, 3)
  }

  function CostOf(w: World, ps: seq<Packet>): nat {
    CostAll(w, ps, 3)
  }

  lemma {:induction false} BoundIrrelevant(w: World, ps: seq<Packet>, bound: nat)
    requires RanksBelow(w, ps, bound)
    ensures ReachAll(w, ps, bound) == ReachOf(w, ps)
    ensures CostAll(w, ps, bound) == CostOf(w, ps)
    decreases |ps|
  {
    if ps != [] {
      BoundIrrelevant(w, ps[1..], bound);
    }
  }

  lemma {:induction false} Together(w: World, ps: seq<Packet>, qs: seq<Packet>)
    ensures ReachOf(w, ps + qs) == ReachOf(w, ps) + ReachOf(w, qs)
    ensures CostOf(w, ps + qs) == CostOf(w, ps) + CostOf(w, qs)
    decreases |ps|
  {
    if ps == [] {
      assert ps + qs == qs;
    } else {
      assert (ps + qs)[1..] == ps[1..] + qs;
      Together(w, ps[1..], qs);
    }
  }

  lemma ReachUnfolds(w: World, p: Packet)
    ensures Reach(w, p) == Dispatched(w, p) + ReachOf(w, Caused(w, p))
    ensures Cost(w, p) == 1 + CostOf(w, Caused(w, p))
  {
    CausedRanksLower(w, p);
    BoundIrrelevant(w, Caused(w, p), Rank(w, p));
  }

  lemma ReachHead(w: World, p: Packet, rest: seq<Packet>)
    ensures ReachOf(w, [p] + rest) == Reach(w, p) + ReachOf(w, rest)
  {
    assert ([p] + rest)[1..] == rest;
  }

  lemma TakeOut(w: World, ps: seq<Packet>, k: nat)
    requires k < |ps|
    ensures ReachOf(w, ps) == Reach(w, ps[k]) + ReachOf(w, ps[..k] + ps[k + 1..])
    ensures CostOf(w, ps) == Cost(w, ps[k]) + CostOf(w, ps[..k] + ps[k + 1..])
  {
    assert ps == ps[..k] + ps[k..];
    Together(w, ps[..k], ps[k..]);
    Together(w, ps[..k], ps[k + 1..]);
  }

  // ---- Runs

  datatype Network = Network(inFlight: seq<Packet>, handled: multiset<Handled>)

  datatype Move = Deliver(k: nat) | Lose(k: nat)

  function Moved(w: World, s: Network, m: Move): Network
    requires m.k < |s.inFlight|
  {
    var rest, p := s.inFlight[..m.k] + s.inFlight[m.k + 1..], s.inFlight[m.k];
    match m
    case Deliver(_) => Network(rest + Caused(w, p), s.handled + Dispatched(w, p))
    case Lose(_) => s.(inFlight := rest)
  }

  predicate Playable(w: World, s: Network, moves: seq<Move>)
    decreases |moves|
  {
    moves == [] || (moves[0].k < |s.inFlight| && Playable(w, Moved(w, s, moves[0]), moves[1..]))
  }

  function Play(w: World, s: Network, moves: seq<Move>): Network
    requires Playable(w, s, moves)
    decreases |moves|
  {
    if moves == [] then s else Play(w, Moved(w, s, moves[0]), moves[1..])
  }

  /** What has been handled and what the packets in flight can still bring about. */
  function Prospect(w: World, s: Network): multiset<Handled> {
    s.handled + ReachOf(w, s.inFlight)
  }

  /** A delivery conserves the prospect, a loss can only shrink it, and both lower the cost
      of what is in flight. */
  lemma MoveConserves(w: World, s: Network, m: Move)
    requires m.k < |s.inFlight|
    ensures Prospect(w, Moved(w, s, m)) <= Prospect(w, s)
    ensures m.Deliver? ==> Prospect(w, Moved(w, s, m)) == Prospect(w, s)
    ensures CostOf(w, Moved(w, s, m).inFlight) < CostOf(w, s.inFlight)
    ensures m.Deliver? ==> CostOf(w, Moved(w, s, m).inFlight) + 1 == CostOf(w, s.inFlight)
  {
    var rest, p := s.inFlight[..m.k] + s.inFlight[m.k + 1..], s.inFlight[m.k];
    TakeOut(w, s.inFlight, m.k);
    if m.Deliver? {
      ReachUnfolds(w, p);
      Together(w, rest, Caused(w, p));
      Interchange(s.handled, Dispatched(w, p), ReachOf(w, rest), ReachOf(w, Caused(w, p)));
    }
  }

  /** Nothing was lost and nothing is under way any more. */
  predicate RanOut(w: World, s: Network, moves: seq<Move>)
    requires Playable(w, s, moves)
  {
    (forall i :: 0 <= i < |moves| ==> moves[i].Deliver?) && Play(w, s, moves).inFlight == []
  }

  /** Over whole runs: nothing is handled that was not in prospect, and a run is no longer
      than the cost of what was in flight. Without losses exactly the prospect is handled
      once nothing is in flight, in exactly that many moves. */
  lemma {:induction false} RunConserves(w: World, s: Network, moves: seq<Move>)
    requires Playable(w, s, moves)
    ensures Play(w, s, moves).handled <= Prospect(w, s)
    ensures |moves| <= CostOf(w, s.inFlight)
    ensures RanOut(w, s, moves) ==>
              Play(w, s, moves).handled == Prospect(w, s) && |moves| == CostOf(w, s.inFlight)
    decreases |moves|
  {
    if moves != [] {
      MoveConserves(w, s, moves[0]);
      RunConserves(w, Moved(w, s, moves[0]), moves[1..]);
    }
  }

  // ---- One command from one node

  /** Node o multicasts a command on its network. */
  function Originate(w: World, o: Address, command: byte, args: seq<byte>): Network {
    Network(PacketsTo(Neighbours(w, w.nodes, o), o, command, args), multiset{})
  }

  /** Handled once at each of these nodes. */
  function HandledAt(xs: seq<Address>, o: Address, command: byte, args: seq<byte>): multiset<Handled> {
    if xs == [] then multiset{}
    else multiset{Handled(xs[0], o, command, args)} + HandledAt(xs[1..], o, command, args)
  }

  lemma {:induction false} HandledCount(xs: seq<Address>, o: Address, command: byte, args: seq<byte>, h: Handled)
    requires NoRepeats(xs)
    ensures HandledAt(xs, o, command, args)[h]
         == if h.at in xs && h == Handled(h.at, o, command, args) then 1 else 0
  {
    if xs != [] {
      HeadNotInTail(xs);
      HandledCount(xs[1..], o, command, args, h);
      assert h.at in xs <==> h.at == xs[0] || h.at in xs[1..];
    }
  }

  lemma {:induction false} NeighboursDistinct(w: World, nodes: seq<Address>, x: Address)
    requires NoRepeats(nodes)
    ensures NoRepeats(Neighbours(w, nodes, x))
  {
    if nodes != [] {
      HeadNotInTail(nodes);
      NeighboursDistinct(w, nodes[1..], x);
      NeighboursMeaning(w, nodes[1..], x);
      var rest := Neighbours(w, nodes[1..], x);
      assert forall k :: 0 <= k < |rest| ==> rest[k] in rest && rest[k] != nodes[0];
    }
  }

  /** Plain packets to nodes that are not gateways are handled there and end. */
  lemma {:induction false} PlainReach(w: World, xs: seq<Address>, o: Address, command: byte, args: seq<byte>)
    requires command != FORWARD && command < NUM_COMMANDS && Valid(command, |args|) && |args| <= MAX_ARGS
    requires forall i :: 0 <= i < |xs| ==> !IsGateway(w, xs[i])
    ensures ReachOf(w, PacketsTo(xs, o, command, args)) == HandledAt(xs, o, command, args)
    ensures CostOf(w, PacketsTo(xs, o, command, args)) == |xs|
    decreases |xs|
  {
    if xs != [] {
      var ps := PacketsTo(xs, o, command, args);
      assert ps[1..] == PacketsTo(xs[1..], o, command, args);
      CausedCases(w, ps[0]);
      ReachUnfolds(w, ps[0]);
      assert Reach(w, ps[0]) == multiset{Handled(xs[0], o, command, args)};
      PlainReach(w, xs[1..], o, command, args);
    }
  }

  lemma ForwardDispatched(w: World, g: Address, o: Address, command: byte, args: seq<byte>)
    requires IsGateway(w, g) && Forwardable(command) && Valid(command, |args|) && |args| < MAX_ARGS
    ensures Dispatched(w, Packet(g, o, FORWARD, [command] + args)) == multiset{Handled(g, o, command, args)}
  {
    var data := [command] + args;
    assert data[0] == command && data[1..] == args;
    assert Unwraps(true, o, command, args) != [];
    assert Handles(true, o, FORWARD, data) == Some((command, args));
  }

  /** A Forward to a gateway is handled there and at all its neighbours; one to a node that
      is no gateway any more ends there. */
  function ForwardReach(w: World, g: Address, o: Address, command: byte, args: seq<byte>): multiset<Handled> {
    if !IsGateway(w, g) || |args| >= MAX_ARGS then multiset{}
    else multiset{Handled(g, o, command, args)} + HandledAt(Neighbours(w, w.nodes, g), o, command, args)
  }

  /** The packets it costs. */
  function ForwardCost(w: World, g: Address, args: seq<byte>): nat {
    1 + if !IsGateway(w, g) || |args| >= MAX_ARGS then 0 else |Neighbours(w, w.nodes, g)|
  }

  lemma ForwardReaches(w: World, g: Address, o: Address, command: byte, args: seq<byte>)
    requires Forwardable(command) && Valid(command, |args|)
    ensures Reach(w, Packet(g, o, FORWARD, [command] + args)) == ForwardReach(w, g, o, command, args)
    ensures Cost(w, Packet(g, o, FORWARD, [command] + args)) == ForwardCost(w, g, args)
  {
    var p := Packet(g, o, FORWARD, [command] + args);
    assert p.data[0] == command && p.data[1..] == args;
    CausedCases(w, p);
    ReachUnfolds(w, p);
    if IsGateway(w, g) && |args| < MAX_ARGS {
      var xs := Neighbours(w, w.nodes, g);
      NeighboursNotGateways(w, g);
      PlainReach(w, xs, o, command, args);
      assert Caused(w, p) == PacketsTo(xs, o, command, args);
      ForwardDispatched(w, g, o, command, args);
    } else {
      assert Caused(w, p) == [] && Dispatched(w, p) == multiset{};
    }
  }

  /** What all Forwards of one gateway bring about. */
  function ForwardsReach(w: World, gs: seq<Address>, o: Address, command: byte, args: seq<byte>): multiset<Handled> {
    if gs == [] then multiset{}
    else ForwardReach(w, gs[0], o, command, args) + ForwardsReach(w, gs[1..], o, command, args)
  }

  function ForwardsCost(w: World, gs: seq<Address>, args: seq<byte>): nat {
    if gs == [] then 0 else ForwardCost(w, gs[0], args) + ForwardsCost(w, gs[1..], args)
  }

  lemma {:induction false} AllForwardsReach(w: World, gs: seq<Address>, o: Address, command: byte, args: seq<byte>)
    requires Forwardable(command) && Valid(command, |args|)
    ensures ReachOf(w, PacketsTo(gs, o, FORWARD, [command] + args)) == ForwardsReach(w, gs, o, command, args)
    ensures CostOf(w, PacketsTo(gs, o, FORWARD, [command] + args)) == ForwardsCost(w, gs, args)
    decreases |gs|
  {
    if gs != [] {
      var ps := PacketsTo(gs, o, FORWARD, [command] + args);
      assert ps[1..] == PacketsTo(gs[1..], o, FORWARD, [command] + args);
      ForwardReaches(w, gs[0], o, command, args);
      AllForwardsReach(w, gs[1..], o, command, args);
    }
  }

  /** How often one Forward has a command handled at node x. */
  lemma ForwardCount(w: World, g: Address, o: Address, command: byte, args: seq<byte>, h: Handled)
    requires Sane(w) && |args| < MAX_ARGS
    ensures ForwardReach(w, g, o, command, args)[h] ==
            if h == Handled(h.at, o, command, args) && h.at in w.netOf
               && w.netOf[h.at] in w.gatewayOf && w.gatewayOf[w.netOf[h.at]] == g
            then 1 else 0
  {
    NeighboursDistinct(w, w.nodes, g);
    NeighboursMeaning(w, w.nodes, g);
    HandledCount(Neighbours(w, w.nodes, g), o, command, args, h);
  }

  /** How often a Forward round has a command handled at node x: once if x's network has its
      present gateway in the table. */
  lemma {:induction false} ForwardsCount(w: World, gs: seq<Address>, o: Address, command: byte, args: seq<byte>,
                                         h: Handled)
    requires Sane(w) && |args| < MAX_ARGS
    requires NoRepeats(gs)
    ensures ForwardsReach(w, gs, o, command, args)[h] ==
            if h == Handled(h.at, o, command, args) && h.at in w.netOf
               && w.netOf[h.at] in w.gatewayOf && w.gatewayOf[w.netOf[h.at]] in gs
            then 1 else 0
    decreases |gs|
  {
    if gs != [] {
      HeadNotInTail(gs);
      ForwardCount(w, gs[0], o, command, args, h);
      ForwardsCount(w, gs[1..], o, command, args, h);
      assert forall x :: x in gs <==> x == gs[0] || x in gs[1..];
    }
  }

  lemma {:induction false} LargeForwardsReachNothing(w: World, gs: seq<Address>, o: Address, command: byte,
                                                     args: seq<byte>)
    requires |args| >= MAX_ARGS
    ensures ForwardsReach(w, gs, o, command, args) == multiset{}
  {
    if gs != [] {
      LargeForwardsReachNothing(w, gs[1..], o, command, args);
    }
  }

  /** The gateway that relays o's multicast: that of o's network, unless o is it. */
  predicate Relays(w: World, o: Address) {
    o in w.netOf && w.netOf[o] in w.gatewayOf && w.gatewayOf[w.netOf[o]] != o
  }

  /** Whether o's command is in prospect at node x. */
  predicate InProspect(w: World, o: Address, args: seq<byte>, x: Address) {
    && x in w.netOf && o in w.netOf && x != o && |args| <= MAX_ARGS
    && (w.netOf[x] == w.netOf[o] ||
        (&& Relays(w, o) && |args| < MAX_ARGS
         && w.netOf[x] in w.gatewayOf
         && w.gatewayOf[w.netOf[x]] in Known(w, w.gatewayOf[w.netOf[o]])))
  }

  /** What the relaying gateway adds, if it is among the receivers. */
  function RelayReach(w: World, xs: seq<Address>, o: Address, command: byte, args: seq<byte>): multiset<Handled> {
    if o in w.netOf && w.netOf[o] in w.gatewayOf && w.gatewayOf[w.netOf[o]] in xs
    then ForwardsReach(w, Known(w, w.gatewayOf[w.netOf[o]]), o, command, args) else multiset{}
  }

  function RelayCost(w: World, xs: seq<Address>, o: Address, args: seq<byte>): nat {
    if o in w.netOf && w.netOf[o] in w.gatewayOf && w.gatewayOf[w.netOf[o]] in xs
    then ForwardsCost(w, Known(w, w.gatewayOf[w.netOf[o]]), args) else 0
  }

  /** What a receiver adds as a gateway. */
  function GatewayReach(w: World, x: Address, o: Address, command: byte, args: seq<byte>): multiset<Handled> {
    if IsGateway(w, x) then ForwardsReach(w, Known(w, x), o, command, args) else multiset{}
  }

  function GatewayCost(w: World, x: Address, args: seq<byte>): nat {
    if IsGateway(w, x) then ForwardsCost(w, Known(w, x), args) else 0
  }

  lemma RelayReachHead(w: World, xs: seq<Address>, o: Address, command: byte, args: seq<byte>)
    requires xs != [] && NoRepeats(xs) && o in w.netOf && xs[0] in w.netOf && w.netOf[xs[0]] == w.netOf[o]
    ensures RelayReach(w, xs, o, command, args)
         == GatewayReach(w, xs[0], o, command, args) + RelayReach(w, xs[1..], o, command, args)
    ensures RelayCost(w, xs, o, args) == GatewayCost(w, xs[0], args) + RelayCost(w, xs[1..], o, args)
  {
    HeadNotInTail(xs);
    assert forall x :: x in xs <==> x == xs[0] || x in xs[1..];
  }

  lemma {:induction false} MulticastReach(w: World, xs: seq<Address>, o: Address, command: byte, args: seq<byte>)
    requires o in w.netOf && Forwardable(command) && Valid(command, |args|) && |args| <= MAX_ARGS
    requires NoRepeats(xs)
    requires forall i :: 0 <= i < |xs| ==> xs[i] in w.netOf && w.netOf[xs[i]] == w.netOf[o]
    ensures ReachOf(w, PacketsTo(xs, o, command, args)) ==
            HandledAt(xs, o, command, args) + RelayReach(w, xs, o, command, args)
    ensures CostOf(w, PacketsTo(xs, o, command, args)) == |xs| + RelayCost(w, xs, o, args)
    decreases |xs|
  {
    if xs != [] {
      HeadNotInTail(xs);
      MulticastReach(w, xs[1..], o, command, args);
      MulticastHead(w, xs, o, command, args);
      RelayReachHead(w, xs, o, command, args);
      Interchange(multiset{Handled(xs[0], o, command, args)}, GatewayReach(w, xs[0], o, command, args),
                  HandledAt(xs[1..], o, command, args), RelayReach(w, xs[1..], o, command, args));
    }
  }

  lemma MulticastHead(w: World, xs: seq<Address>, o: Address, command: byte, args: seq<byte>)
    requires Forwardable(command) && Valid(command, |args|) && |args| <= MAX_ARGS && xs != []
    ensures ReachOf(w, PacketsTo(xs, o, command, args))
         == (multiset{Handled(xs[0], o, command, args)} + GatewayReach(w, xs[0], o, command, args))
            + ReachOf(w, PacketsTo(xs[1..], o, command, args))
    ensures CostOf(w, PacketsTo(xs, o, command, args))
         == 1 + GatewayCost(w, xs[0], args) + CostOf(w, PacketsTo(xs[1..], o, command, args))
  {
    var rest := PacketsTo(xs[1..], o, command, args);
    assert PacketsTo(xs, o, command, args) == [Packet(xs[0], o, command, args)] + rest;
    ReachHead(w, Packet(xs[0], o, command, args), rest);
    PlainPacketReach(w, xs[0], o, command, args);
  }

  lemma Interchange(a: multiset<Handled>, b: multiset<Handled>, c: multiset<Handled>, d: multiset<Handled>)
    ensures (a + b) + (c + d) == (a + c) + (b + d)
  {
  }

  lemma PlainPacketReach(w: World, x: Address, o: Address, command: byte, args: seq<byte>)
    requires Forwardable(command) && Valid(command, |args|) && |args| <= MAX_ARGS
    ensures Reach(w, Packet(x, o, command, args)) ==
            multiset{Handled(x, o, command, args)} + GatewayReach(w, x, o, command, args)
    ensures Cost(w, Packet(x, o, command, args)) == 1 + GatewayCost(w, x, args)
  {
    var p := Packet(x, o, command, args);
    CausedCases(w, p);
    ReachUnfolds(w, p);
    assert Dispatched(w, p) == multiset{Handled(x, o, command, args)};
    if IsGateway(w, x) {
      AllForwardsReach(w, Known(w, x), o, command, args);
    }
  }

  /** The packets a command from node o can cost: one for each other node of its network,
      one for each entry of the relaying gateway's table, and one for each other node of
      those networks whose present gateway is in it. */
  function PacketBound(w: World, o: Address, args: seq<byte>): nat {
    |Neighbours(w, w.nodes, o)| + if Relays(w, o) then ForwardsCost(w, Known(w, w.gatewayOf[w.netOf[o]]), args) else 0
  }

  lemma MulticastFromNode(w: World, o: Address, command: byte, args: seq<byte>)
    requires Sane(w) && o in w.netOf && Forwardable(command) && Valid(command, |args|) && |args| <= MAX_ARGS
    ensures var xs := Neighbours(w, w.nodes, o);
            && ReachOf(w, PacketsTo(xs, o, command, args))
               == HandledAt(xs, o, command, args) + RelayReach(w, xs, o, command, args)
            && CostOf(w, PacketsTo(xs, o, command, args)) == PacketBound(w, o, args)
  {
    var xs := Neighbours(w, w.nodes, o);
    NeighboursMeaning(w, w.nodes, o);
    NeighboursDistinct(w, w.nodes, o);
    forall i | 0 <= i < |xs| ensures xs[i] in w.netOf && w.netOf[xs[i]] == w.netOf[o] {
      assert xs[i] in xs;
    }
    MulticastReach(w, xs, o, command, args);
    assert Relays(w, o) ==> w.gatewayOf[w.netOf[o]] in xs;
  }

  /** The prospect of a multicast forwardable command, node by node: once at every node of
      the sender's network but the sender, and once at every node of each network whose
      present gateway is in the relaying gateway's table. */
  lemma OriginateProspect(w: World, o: Address, command: byte, args: seq<byte>, h: Handled)
    requires Sane(w) && o in w.netOf && Forwardable(command) && Valid(command, |args|) && |args| <= MAX_ARGS
    ensures Prospect(w, Originate(w, o, command, args))[h] ==
            if h == Handled(h.at, o, command, args) && InProspect(w, o, args, h.at) then 1 else 0
  {
    var xs := Neighbours(w, w.nodes, o);
    NeighboursMeaning(w, w.nodes, o);
    NeighboursDistinct(w, w.nodes, o);
    MulticastFromNode(w, o, command, args);
    HandledCount(xs, o, command, args, h);
    if Relays(w, o) {
      var g := w.gatewayOf[w.netOf[o]];
      assert g in xs;
      if |args| < MAX_ARGS {
        ForwardsCount(w, Known(w, g), o, command, args, h);
      } else {
        LargeForwardsReachNothing(w, Known(w, g), o, command, args);
      }
    }
  }

  /** At most once: whatever is delivered, in any order, and whatever is lost, no node
      handles the command twice, nobody handles anything else, and no more packets are moved
      than PacketBound allows, exactly that many when none is lost. Tables may list nodes that
      are no gateways any more. */
  lemma AtMostOnce(w: World, o: Address, command: byte, args: seq<byte>, moves: seq<Move>, h: Handled)
    requires Sane(w) && o in w.netOf && Forwardable(command) && Valid(command, |args|) && |args| <= MAX_ARGS
    requires Playable(w, Originate(w, o, command, args), moves)
    ensures Play(w, Originate(w, o, command, args), moves).handled[h] <= 1
    ensures h in Play(w, Originate(w, o, command, args), moves).handled ==>
              h == Handled(h.at, o, command, args) && InProspect(w, o, args, h.at)
    ensures |moves| <= PacketBound(w, o, args)
    ensures RanOut(w, Originate(w, o, command, args), moves) ==> |moves| == PacketBound(w, o, args)
  {
    RunConserves(w, Originate(w, o, command, args), moves);
    OriginateProspect(w, o, command, args, h);
    MulticastFromNode(w, o, command, args);
    assert Play(w, Originate(w, o, command, args), moves).handled[h]
        <= Prospect(w, Originate(w, o, command, args))[h];
  }

  /** The gateway of x's network knows that of y's. */
  predicate Linked(w: World, x: Address, y: Address)
    requires x in w.netOf && y in w.netOf
  {
    && w.netOf[x] in w.gatewayOf && w.netOf[y] in w.gatewayOf
    && w.gatewayOf[w.netOf[y]] in Known(w, w.gatewayOf[w.netOf[x]])
  }

  /** Every network has a gateway and every gateway knows all others. */
  predicate FullTables(w: World) {
    forall x, y :: x in w.netOf && y in w.netOf && w.netOf[x] != w.netOf[y] ==> Linked(w, x, y)
  }

  /** With full tables and nothing lost, once nothing is in flight: the nodes of the
      sender's own network have handled the command once, and a node of another network has
      handled it, once, iff the sender is not itself the gateway and the command leaves room
      for the byte a Forward adds. The sender never handles it. */
  lemma ReachesEveryoneOnce(w: World, o: Address, command: byte, args: seq<byte>, moves: seq<Move>, x: Address)
    requires Sane(w) && FullTables(w) && o in w.netOf && x in w.netOf
    requires Forwardable(command) && Valid(command, |args|) && |args| <= MAX_ARGS
    requires Playable(w, Originate(w, o, command, args), moves)
    requires forall i :: 0 <= i < |moves| ==> moves[i].Deliver?
    requires Play(w, Originate(w, o, command, args), moves).inFlight == []
    ensures Play(w, Originate(w, o, command, args), moves).handled[Handled(x, o, command, args)] ==
            if x != o && (w.netOf[x] == w.netOf[o] || (!IsGateway(w, o) && |args| < MAX_ARGS)) then 1 else 0
  {
    RunConserves(w, Originate(w, o, command, args), moves);
    OriginateProspect(w, o, command, args, Handled(x, o, command, args));
    assert w.netOf[x] != w.netOf[o] ==> Linked(w, o, x);
  }
}
