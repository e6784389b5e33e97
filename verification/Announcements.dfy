/** Where the tables of Relay come from: every elected gateway announces itself to the
    gateways of the other networks (MulticastGateway.cpp), and nobody answers. */
module Announcements {
  import opened Hashes
  import opened Endian
  import opened Elections
  import opened Frames
  import opened Gateways
  import opened Relay

  /** A node is elected in a network and its RemoteGateway packets reach some networks. */
  datatype Announcement = Announcement(net: nat, gateway: Address, reached: set<nat>)

  /** The present gateway of a network. */
  function GatewayAt(anns: seq<Announcement>, net: nat): Option<Address> {
    if anns == [] then None
    else if anns[|anns| - 1].net == net then Some(anns[|anns| - 1].gateway)
    else GatewayAt(anns[..|anns| - 1], net)
  }

  /** The table of node g of a network: it learns what other networks announce while it is
      the gateway, and keeps its table when it is not. */
  function TableAt(anns: seq<Announcement>, net: nat, g: Address): map<nat, Address> {
    if anns == [] then map[]
    else
      var earlier, last := anns[..|anns| - 1], anns[|anns| - 1];
      Learned(last.net != net && net in last.reached && GatewayAt(earlier, net) == Some(g),
              TableAt(earlier, net, g), last.gateway)
  }

  /** The nodes are hosts of the subnets, and every gateway announced is one of them. */
  predicate Inhabited(nodes: seq<Address>, anns: seq<Announcement>) {
    && NoRepeats(nodes)
    && (forall k :: 0 <= k < |nodes| ==> SubnetOf(nodes[k], 0) < |SUBNETS|)
    && forall t :: 0 <= t < |anns| ==> anns[t].gateway in nodes && SubnetOf(anns[t].gateway, 0) == anns[t].net
  }

  /** Whom node x forwards to as a gateway. */
  function ListOf(anns: seq<Announcement>, x: Address): seq<Address> {
    Targets(TableAt(anns, SubnetOf(x, 0), x), 0)
  }

  /** The world that these announcements leave. */
  function WorldAfter(nodes: seq<Address>, anns: seq<Announcement>): World {
    World(nodes,
          map x | x in nodes :: SubnetOf(x, 0),
          map net | 0 <= net < |SUBNETS| && GatewayAt(anns, net).Some? :: GatewayAt(anns, net).value,
          map x | x in nodes && GatewayAt(anns, SubnetOf(x, 0)) == Some(x) :: ListOf(anns, x))
  }

  // ---- What a table holds

  /** The announcement at time t is one that g heard as the gateway of `net`. */
  predicate HeardBy(anns: seq<Announcement>, t: nat, net: nat, g: Address)
    requires t < |anns|
  {
    anns[t].net != net && net in anns[t].reached && GatewayAt(anns[..t], net) == Some(g)
  }

  /** The last announcement of network `other` that g heard. */
  predicate LastHeard(anns: seq<Announcement>, t: nat, net: nat, g: Address, other: nat)
    requires t < |anns|
  {
    && anns[t].net == other && HeardBy(anns, t, net, g)
    && forall s :: t < s < |anns| && anns[s].net == other ==> !HeardBy(anns, s, net, g)
  }

  /** The last announcement of network `other` that g heard was by h. */
  ghost predicate LastBy(anns: seq<Announcement>, net: nat, g: Address, other: nat, h: Address) {
    exists t :: 0 <= t < |anns| && LastHeard(anns, t, net, g, other) && anns[t].gateway == h
  }

  lemma LastHeardOneMore(anns: seq<Announcement>, t: nat, net: nat, g: Address, other: nat)
    requires t + 1 < |anns|
    requires !(HeardBy(anns, |anns| - 1, net, g) && anns[|anns| - 1].net == other)
    ensures LastHeard(anns, t, net, g, other) <==> LastHeard(anns[..|anns| - 1], t, net, g, other)
  {
    var earlier := anns[..|anns| - 1];
    forall s | t <= s < |earlier| ensures HeardBy(anns, s, net, g) <==> HeardBy(earlier, s, net, g) {
      assert anns[..s] == earlier[..s];
    }
  }

  lemma LastByEarlier(earlier: seq<Announcement>, last: Announcement, net: nat, g: Address, other: nat, h: Address)
    requires !(HeardBy(earlier + [last], |earlier|, net, g) && last.net == other)
    ensures LastBy(earlier + [last], net, g, other, h) <==> LastBy(earlier, net, g, other, h)
  {
    var anns := earlier + [last];
    assert anns[..|earlier|] == earlier;
    if t :| 0 <= t < |anns| && LastHeard(anns, t, net, g, other) && anns[t].gateway == h {
      LastHeardOneMore(anns, t, net, g, other);
      assert earlier[t].gateway == h;
    }
    if t :| 0 <= t < |earlier| && LastHeard(earlier, t, net, g, other) && earlier[t].gateway == h {
      LastHeardOneMore(anns, t, net, g, other);
      assert anns[t].gateway == h;
    }
  }

  lemma LastByNow(earlier: seq<Announcement>, last: Announcement, net: nat, g: Address, h: Address)
    requires HeardBy(earlier + [last], |earlier|, net, g)
    ensures LastBy(earlier + [last], net, g, last.net, h) <==> last.gateway == h
  {
    var anns := earlier + [last];
    assert LastHeard(anns, |earlier|, net, g, last.net);
    if t :| 0 <= t < |anns| && LastHeard(anns, t, net, g, last.net) && anns[t].gateway == h {
      assert t == |earlier|;
    }
  }

  lemma TableAtHead(earlier: seq<Announcement>, last: Announcement, net: nat, g: Address)
    requires SubnetOf(last.gateway, 0) == last.net < |SUBNETS|
    ensures TableAt(earlier + [last], net, g) ==
            if HeardBy(earlier + [last], |earlier|, net, g) then TableAt(earlier, net, g)[last.net := last.gateway]
            else TableAt(earlier, net, g)
  {
    assert (earlier + [last])[..|earlier|] == earlier;
  }

  /** A table holds exactly the last announcement heard of each network. */
  lemma {:induction false} TableHoldsLastHeard(nodes: seq<Address>, anns: seq<Announcement>, net: nat, g: Address,
                                               other: nat, h: Address)
    requires Inhabited(nodes, anns)
    ensures other in TableAt(anns, net, g) && TableAt(anns, net, g)[other] == h <==> LastBy(anns, net, g, other, h)
    decreases |anns|
  {
    if anns != [] {
      var earlier, last := anns[..|anns| - 1], anns[|anns| - 1];
      assert anns == earlier + [last];
      TableHoldsLastHeard(nodes, earlier, net, g, other, h);
      AnnouncerHosted(nodes, anns, |anns| - 1);
      TableAtHead(earlier, last, net, g);
      if HeardBy(anns, |earlier|, net, g) && last.net == other {
        LastByNow(earlier, last, net, g, h);
      } else {
        LastByEarlier(earlier, last, net, g, other, h);
      }
    }
  }

  lemma AnnouncerHosted(nodes: seq<Address>, anns: seq<Announcement>, t: nat)
    requires Inhabited(nodes, anns) && t < |anns|
    ensures SubnetOf(anns[t].gateway, 0) == anns[t].net < |SUBNETS|
  {
  }

  lemma {:induction false} GatewayIsNode(nodes: seq<Address>, anns: seq<Announcement>, net: nat)
    requires Inhabited(nodes, anns) && GatewayAt(anns, net).Some?
    ensures GatewayAt(anns, net).value in nodes && SubnetOf(GatewayAt(anns, net).value, 0) == net
    decreases |anns|
  {
    if anns[|anns| - 1].net != net {
      GatewayIsNode(nodes, anns[..|anns| - 1], net);
    }
  }

  /** Every entry of a table is a node of the entry's network, which is not the own one. */
  lemma {:induction false} EntriesHosted(nodes: seq<Address>, anns: seq<Announcement>, net: nat, g: Address)
    requires Inhabited(nodes, anns)
    ensures forall i :: i in TableAt(anns, net, g) ==>
              i < |SUBNETS| && i != net && TableAt(anns, net, g)[i] in nodes
              && SubnetOf(TableAt(anns, net, g)[i], 0) == i
    decreases |anns|
  {
    if anns != [] {
      EntriesHosted(nodes, anns[..|anns| - 1], net, g);
    }
  }

  lemma {:induction false} TargetsMeaning(table: map<nat, Address>, from: nat)
    ensures forall x :: x in Targets(table, from) <==> exists i :: from <= i < |SUBNETS| && i in table && table[i] == x
    decreases |SUBNETS| - from
  {
    if from < |SUBNETS| {
      TargetsMeaning(table, from + 1);
      forall x ensures x in Targets(table, from) <==> exists i :: from <= i < |SUBNETS| && i in table && table[i] == x {
        assert x in Targets(table, from) <==> (from in table && table[from] == x) || x in Targets(table, from + 1);
        if i :| from <= i < |SUBNETS| && i in table && table[i] == x {
          assert i == from || from + 1 <= i;
        }
      }
    }
  }

  // ---- When all tables are full

  /** The gateway of `net` knows the present gateway of network `other`: the last
      announcement of that network made while it was the gateway was by that one. */
  ghost predicate Knows(anns: seq<Announcement>, net: nat, other: nat) {
    && GatewayAt(anns, net).Some? && GatewayAt(anns, other).Some?
    && LastBy(anns, net, GatewayAt(anns, net).value, other, GatewayAt(anns, other).value)
  }

  lemma ListedIffKnown(nodes: seq<Address>, anns: seq<Announcement>, net: nat, other: nat)
    requires Inhabited(nodes, anns) && GatewayAt(anns, net).Some? && GatewayAt(anns, other).Some?
    ensures GatewayAt(anns, other).value in Targets(TableAt(anns, net, GatewayAt(anns, net).value), 0)
       <==> Knows(anns, net, other)
  {
    var g, h := GatewayAt(anns, net).value, GatewayAt(anns, other).value;
    var table := TableAt(anns, net, g);
    TargetsMeaning(table, 0);
    EntriesHosted(nodes, anns, net, g);
    GatewayIsNode(nodes, anns, other);
    TableHoldsLastHeard(nodes, anns, net, g, other, h);
    assert other < |SUBNETS|;
  }

  lemma LinkedIffKnows(nodes: seq<Address>, anns: seq<Announcement>, x: Address, y: Address)
    requires Inhabited(nodes, anns) && x in nodes && y in nodes
    ensures Linked(WorldAfter(nodes, anns), x, y) <==> Knows(anns, SubnetOf(x, 0), SubnetOf(y, 0))
  {
    var a, b := SubnetOf(x, 0), SubnetOf(y, 0);
    if GatewayAt(anns, a).Some? && GatewayAt(anns, b).Some? {
      GatewayIsNode(nodes, anns, a);
      ListedIffKnown(nodes, anns, a, b);
    }
  }

  /** The gateways of any two inhabited networks know each other. */
  ghost predicate AllKnow(nodes: seq<Address>, anns: seq<Announcement>) {
    forall x, y :: x in nodes && y in nodes && SubnetOf(x, 0) != SubnetOf(y, 0) ==>
      Knows(anns, SubnetOf(x, 0), SubnetOf(y, 0))
  }

  lemma WorldNets(nodes: seq<Address>, anns: seq<Announcement>)
    ensures var w := WorldAfter(nodes, anns);
            forall x :: x in w.netOf <==> x in nodes
    ensures forall x :: x in nodes ==> WorldAfter(nodes, anns).netOf[x] == SubnetOf(x, 0)
  {
  }

  lemma FullIfKnown(w: World, nodes: seq<Address>, anns: seq<Announcement>)
    requires forall x :: x in w.netOf <==> x in nodes
    requires forall x :: x in nodes ==> w.netOf[x] == SubnetOf(x, 0)
    requires forall x, y :: x in nodes && y in nodes ==>
               (Linked(w, x, y) <==> Knows(anns, SubnetOf(x, 0), SubnetOf(y, 0)))
    ensures FullTables(w) <==> AllKnow(nodes, anns)
  {
  }

  lemma FullTablesIff(nodes: seq<Address>, anns: seq<Announcement>)
    requires Inhabited(nodes, anns)
    ensures FullTables(WorldAfter(nodes, anns)) <==> AllKnow(nodes, anns)
  {
    WorldNets(nodes, anns);
    forall x, y | x in nodes && y in nodes
      ensures Linked(WorldAfter(nodes, anns), x, y) <==> Knows(anns, SubnetOf(x, 0), SubnetOf(y, 0))
    {
      LinkedIffKnows(nodes, anns, x, y);
    }
    FullIfKnown(WorldAfter(nodes, anns), nodes, anns);
  }

  lemma {:induction false} TargetsDistinct(table: map<nat, Address>, from: nat)
    requires forall i :: i in table ==> SubnetOf(table[i], 0) == i
    ensures NoRepeats(Targets(table, from))
    decreases |SUBNETS| - from
  {
    if from < |SUBNETS| {
      TargetsDistinct(table, from + 1);
      TargetsMeaning(table, from + 1);
      var rest := Targets(table, from + 1);
      assert forall k :: 0 <= k < |rest| ==> rest[k] in rest;
    }
  }

  /** Tables that know all present gateways list nobody else. */
  lemma KnownArePresent(nodes: seq<Address>, anns: seq<Announcement>, x: Address, y: Address)
    requires Inhabited(nodes, anns) && AllKnow(nodes, anns) && x in nodes
    requires GatewayAt(anns, SubnetOf(x, 0)) == Some(x) && y in ListOf(anns, x)
    ensures y in nodes && SubnetOf(y, 0) != SubnetOf(x, 0) && GatewayAt(anns, SubnetOf(y, 0)) == Some(y)
  {
    var net := SubnetOf(x, 0);
    var table := TableAt(anns, net, x);
    TargetsMeaning(table, 0);
    EntriesHosted(nodes, anns, net, x);
    var other :| 0 <= other < |SUBNETS| && other in table && table[other] == y;
    assert SubnetOf(y, 0) == other;
    EntryIsPresent(nodes, anns, net, other, y);
  }

  lemma GatewaysInNets(nodes: seq<Address>, anns: seq<Announcement>)
    requires Inhabited(nodes, anns)
    ensures var w := WorldAfter(nodes, anns);
            forall n :: n in w.gatewayOf ==> w.gatewayOf[n] in w.netOf && w.netOf[w.gatewayOf[n]] == n
  {
    var w := WorldAfter(nodes, anns);
    forall n | n in w.gatewayOf ensures w.gatewayOf[n] in w.netOf && w.netOf[w.gatewayOf[n]] == n {
      GatewayIsNode(nodes, anns, n);
    }
  }

  lemma ListIsSane(nodes: seq<Address>, anns: seq<Announcement>, x: Address)
    requires Inhabited(nodes, anns)
    ensures NoRepeats(ListOf(anns, x))
    ensures forall y :: y in ListOf(anns, x) ==> y in nodes && SubnetOf(y, 0) != SubnetOf(x, 0)
  {
    var table := TableAt(anns, SubnetOf(x, 0), x);
    EntriesHosted(nodes, anns, SubnetOf(x, 0), x);
    TargetsDistinct(table, 0);
    TargetsMeaning(table, 0);
  }

  /** Whatever was announced, lost or outlived, the tables list no node of the own network
      and none twice, so Relay's theorems apply. */
  lemma EveryHistoryIsSane(nodes: seq<Address>, anns: seq<Announcement>)
    requires Inhabited(nodes, anns)
    ensures Sane(WorldAfter(nodes, anns))
  {
    var w := WorldAfter(nodes, anns);
    GatewaysInNets(nodes, anns);
    WorldNets(nodes, anns);
    forall x | x in w.known
      ensures x in w.netOf && NoRepeats(w.known[x])
      ensures forall i :: 0 <= i < |w.known[x]| && w.known[x][i] in w.netOf ==> w.netOf[w.known[x][i]] != w.netOf[x]
    {
      ListIsSane(nodes, anns, x);
      assert w.known[x] == ListOf(anns, x);
      assert forall i :: 0 <= i < |w.known[x]| ==> w.known[x][i] in w.known[x];
    }
  }

  /** After any elections and announcements: a command from any node is handled at most once
      by any node, whatever is delivered and lost, and a node handles it at all only if it
      is a neighbour, or its network's present gateway is listed by the relaying one. */
  lemma RelayAfterAnyHistory(nodes: seq<Address>, anns: seq<Announcement>, o: Address, command: byte,
                             args: seq<byte>, moves: seq<Move>, h: Handled)
    requires Inhabited(nodes, anns) && o in nodes
    requires Forwardable(command) && Valid(command, |args|) && |args| <= MAX_ARGS
    requires Playable(WorldAfter(nodes, anns), Originate(WorldAfter(nodes, anns), o, command, args), moves)
    ensures var w := WorldAfter(nodes, anns);
            var handled := Play(w, Originate(w, o, command, args), moves).handled;
            && handled[h] <= 1
            && (h in handled ==> h == Handled(h.at, o, command, args) && InProspect(w, o, args, h.at))
            && |moves| <= PacketBound(w, o, args)
  {
    EveryHistoryIsSane(nodes, anns);
    WorldNets(nodes, anns);
    AtMostOnce(WorldAfter(nodes, anns), o, command, args, moves, h);
  }

  lemma EntryIsPresent(nodes: seq<Address>, anns: seq<Announcement>, net: nat, other: nat, y: Address)
    requires Inhabited(nodes, anns) && Knows(anns, net, other)
    requires var table := TableAt(anns, net, GatewayAt(anns, net).value); other in table && table[other] == y
    ensures GatewayAt(anns, other) == Some(y)
  {
    TableHoldsLastHeard(nodes, anns, net, GatewayAt(anns, net).value, other, GatewayAt(anns, other).value);
  }

  // ---- One round of elections is not enough, two are

  predicate EachOnce(anns: seq<Announcement>) {
    forall s, t :: 0 <= s < t < |anns| ==> anns[s].net != anns[t].net
  }

  lemma {:induction false} SilentNetwork(anns: seq<Announcement>, net: nat)
    requires forall t :: 0 <= t < |anns| ==> anns[t].net != net
    ensures GatewayAt(anns, net) == None
    decreases |anns|
  {
    if anns != [] {
      SilentNetwork(anns[..|anns| - 1], net);
    }
  }

  lemma {:induction false} GatewaySince(anns: seq<Announcement>, t: nat, net: nat)
    requires t < |anns| && anns[t].net == net && forall s :: t < s < |anns| ==> anns[s].net != net
    ensures GatewayAt(anns, net) == Some(anns[t].gateway)
    decreases |anns|
  {
    if t < |anns| - 1 {
      GatewaySince(anns[..|anns| - 1], t, net);
    }
  }

  /** When every network elects once, the earlier gateway of two knows the later one iff the
      announcement reached its network, and never the reverse. */
  lemma OnceIsOneWay(anns: seq<Announcement>, s: nat, t: nat)
    requires EachOnce(anns) && s < t < |anns|
    ensures Knows(anns, anns[s].net, anns[t].net) <==> anns[s].net in anns[t].reached
    ensures !Knows(anns, anns[t].net, anns[s].net)
  {
    var a, b := anns[s].net, anns[t].net;
    GatewaySince(anns, s, a);
    GatewaySince(anns, t, b);
    GatewaySince(anns[..t], s, a);
    assert HeardBy(anns, t, a, anns[s].gateway) <==> a in anns[t].reached;
    assert forall k :: 0 <= k < |anns| && anns[k].net == b ==> k == t;
    if a in anns[t].reached {
      assert LastHeard(anns, t, a, anns[s].gateway, b);
    }
    SilentNetwork(anns[..s], b);
    assert forall k :: 0 <= k < |anns| && anns[k].net == a ==> k == s;
    assert !HeardBy(anns, s, b, anns[t].gateway);
  }

  /** So with two networks at least the tables are not full. */
  lemma OneRoundIsNotEnough(nodes: seq<Address>, anns: seq<Announcement>)
    requires Inhabited(nodes, anns) && EachOnce(anns) && |anns| >= 2
    ensures !FullTables(WorldAfter(nodes, anns))
  {
    OnceIsOneWay(anns, 0, 1);
    FullTablesIff(nodes, anns);
    assert anns[0].gateway in nodes && anns[1].gateway in nodes;
  }

  /** Every inhabited network announces this gateway, and everybody is reached. */
  predicate Covers(nodes: seq<Address>, anns: seq<Announcement>, gatewayOf: map<nat, Address>) {
    && (forall t :: 0 <= t < |anns| ==> anns[t].net in gatewayOf && gatewayOf[anns[t].net] == anns[t].gateway)
    && (forall t, k :: 0 <= t < |anns| && 0 <= k < |nodes| ==> SubnetOf(nodes[k], 0) in anns[t].reached)
    && forall k :: 0 <= k < |nodes| ==> exists t :: 0 <= t < |anns| && anns[t].net == SubnetOf(nodes[k], 0)
  }

  lemma {:induction false} GatewayOfRound(anns: seq<Announcement>, gatewayOf: map<nat, Address>, t: nat)
    requires forall k :: 0 <= k < |anns| ==> anns[k].net in gatewayOf && gatewayOf[anns[k].net] == anns[k].gateway
    requires t < |anns|
    ensures GatewayAt(anns, anns[t].net) == Some(gatewayOf[anns[t].net])
    decreases |anns|
  {
    if anns[|anns| - 1].net != anns[t].net {
      GatewayOfRound(anns[..|anns| - 1], gatewayOf, t);
    }
  }

  lemma {:induction false} SomeLastHeard(anns: seq<Announcement>, t: nat, net: nat, g: Address, other: nat)
    returns (last: nat)
    requires t < |anns| && anns[t].net == other && HeardBy(anns, t, net, g)
    ensures last < |anns| && LastHeard(anns, last, net, g, other)
    decreases |anns| - t
  {
    last := t;
    if s :| t < s < |anns| && anns[s].net == other && HeardBy(anns, s, net, g) {
      last := SomeLastHeard(anns, s, net, g, other);
    }
  }

  /** Announced twice over, in any orders, by the same gateways: all tables are full. */
  lemma TwoRoundsAreEnough(nodes: seq<Address>, first: seq<Announcement>, second: seq<Announcement>,
                           gatewayOf: map<nat, Address>)
    requires Inhabited(nodes, first + second)
    requires Covers(nodes, first, gatewayOf) && Covers(nodes, second, gatewayOf)
    ensures FullTables(WorldAfter(nodes, first + second)) && Sane(WorldAfter(nodes, first + second))
  {
    var anns := first + second;
    forall x, y | x in nodes && y in nodes && SubnetOf(x, 0) != SubnetOf(y, 0)
      ensures Knows(anns, SubnetOf(x, 0), SubnetOf(y, 0))
    {
      TwoRoundsKnow(nodes, first, second, gatewayOf, x, y);
    }
    FullTablesIff(nodes, anns);
    EveryHistoryIsSane(nodes, anns);
  }

  lemma TwoRoundsKnow(nodes: seq<Address>, first: seq<Announcement>, second: seq<Announcement>,
                      gatewayOf: map<nat, Address>, x: Address, y: Address)
    requires Covers(nodes, first, gatewayOf) && Covers(nodes, second, gatewayOf)
    requires x in nodes && y in nodes && SubnetOf(x, 0) != SubnetOf(y, 0)
    ensures Knows(first + second, SubnetOf(x, 0), SubnetOf(y, 0))
  {
    var anns, a, b := first + second, SubnetOf(x, 0), SubnetOf(y, 0);
    assert forall k :: 0 <= k < |anns| ==> anns[k].net in gatewayOf && gatewayOf[anns[k].net] == anns[k].gateway;
    var s :| 0 <= s < |first| && first[s].net == a;
    var t :| 0 <= t < |second| && second[t].net == b;
    assert anns[s] == first[s] && anns[|first| + t] == second[t];
    GatewayOfRound(anns, gatewayOf, s);
    GatewayOfRound(anns, gatewayOf, |first| + t);
    GatewayOfRound(anns[..|first| + t], gatewayOf, s);
    var last := SomeLastHeard(anns, |first| + t, a, gatewayOf[a], b);
    assert anns[last].gateway == gatewayOf[b];
  }
}
