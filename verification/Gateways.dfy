/** The gateway of a network (MulticastGateway.cpp) and the validity test of dispatch
    (MulticastHandler.cpp). */
module Gateways {
  import opened Hashes
  import opened Endian
  import opened Elections
  import opened Frames

  const CANDIDATE: byte := 0
  const ELECT_GATEWAY: byte := 1
  const FORWARD: byte := 2
  const GATEWAY: byte := 3
  const HELLO: byte := 4
  const MESSAGE: byte := 5
  const REMOTE_GATEWAY: byte := 6
  const SEARCH_BLOCK: byte := 7
  const SEARCH_FILE_NAME: byte := 9
  const SEARCH_FILE_NAME_REPLY: byte := 10

  /** dispatch handles a command only with a fitting number of argument bytes. */
  predicate Valid(command: byte, argsSize: nat) {
    if command == CANDIDATE then argsSize == 4
    else if command == ELECT_GATEWAY || command == GATEWAY || command == REMOTE_GATEWAY then argsSize == 0
    else if command == HELLO || command == SEARCH_BLOCK then argsSize > 4
    else (command == FORWARD || command == MESSAGE || command == SEARCH_FILE_NAME
          || command == SEARCH_FILE_NAME_REPLY) && argsSize > 0
  }

  predicate Forwardable(command: byte) {
    command == HELLO || command == MESSAGE || command == SEARCH_BLOCK || command == SEARCH_FILE_NAME
  }

  /** A packet handed to the socket; no destination stands for the multicast group. */
  datatype Datagram = Datagram(dest: Option<Address>, command: byte, data: seq<byte>, sender: Option<Address>)

  // ---- The hard-coded networks

  datatype Subnet = Subnet(ip: nat, size: nat)

  const SUBNETS := [
    Subnet(0x0a85_0800, 0x100), Subnet(0x0a85_1000, 0x800), Subnet(0x0a85_1800, 0x200),
    Subnet(0x0a85_1a00, 0x200), Subnet(0x0a85_1c00, 0x200)]

  function Lowest(i: nat): nat
    requires i < |SUBNETS|
  {
    SUBNETS[i].ip - SUBNETS[i].ip % SUBNETS[i].size
  }

  function Broadcast(i: nat): uint32
    requires i < |SUBNETS|
  {
    Lowest(i) + SUBNETS[i].size - 1
  }

  /** The address is a host of subnet i. */
  predicate Hosts(i: nat, a: Address)
    requires i < |SUBNETS|
  {
    Lowest(i) < a < Broadcast(i)
  }

  /** The hosts of the five subnets, 10.133.8.0/24, 16.0/21, 24.0/23, 26.0/23 and 28.0/23. */
  lemma SubnetRanges(a: Address)
    ensures Hosts(0, a) <==> 0x0a85_0801 <= a <= 0x0a85_08fe
    ensures Hosts(1, a) <==> 0x0a85_1001 <= a <= 0x0a85_17fe
    ensures Hosts(2, a) <==> 0x0a85_1801 <= a <= 0x0a85_19fe
    ensures Hosts(3, a) <==> 0x0a85_1a01 <= a <= 0x0a85_1bfe
    ensures Hosts(4, a) <==> 0x0a85_1c01 <= a <= 0x0a85_1dfe
    ensures |SUBNETS| == 5
  {
  }

  /** The broadcast address is the last one of its subnet: the one after its last host. */
  lemma BroadcastIsLast(i: nat)
    requires i < 5
    ensures Broadcast(i) == [0x0a85_08ff, 0x0a85_17ff, 0x0a85_19ff, 0x0a85_1bff, 0x0a85_1dff][i]
    ensures Hosts(i, Broadcast(i) - 1) && forall a: Address :: Hosts(i, a) ==> a < Broadcast(i)
  {
    assert i in {0, 1, 2, 3, 4};
  }

  /** The commands that gateways forward: Hello, Message, SearchBlock and SearchFileName. */
  lemma ForwardableCommands(command: byte)
    ensures Forwardable(command) <==> command in {4, 5, 7, 9}
  {
  }

  lemma SubnetsDisjoint(i: nat, j: nat, a: Address)
    requires i < j < |SUBNETS| && Hosts(i, a)
    ensures !Hosts(j, a)
  {
    assert i in {0, 1, 2, 3} && j in {1, 2, 3, 4};
  }

  /** The first subnet that hosts the address, or their number. */
  function SubnetOf(a: Address, from: nat): nat
    decreases |SUBNETS| - from
  {
    if from >= |SUBNETS| || Hosts(from, a) then from else SubnetOf(a, from + 1)
  }

  /** No other subnet hosts it. */
  lemma {:induction false} SubnetOfHost(i: nat, a: Address, from: nat)
    requires from <= i < |SUBNETS| && Hosts(i, a)
    ensures SubnetOf(a, from) == i
    decreases i - from
  {
    if from < i {
      if Hosts(from, a) {
        SubnetsDisjoint(from, i, a);
      } else {
        SubnetOfHost(i, a, from + 1);
      }
    }
  }

  /** on_remoteGateway: the table of a gateway that hears an announcement. */
  function Learned(isGateway: bool, gateways: map<nat, Address>, sender: Address): map<nat, Address> {
    if isGateway && SubnetOf(sender, 0) < |SUBNETS| then gateways[SubnetOf(sender, 0) := sender] else gateways
  }

  /** The known gateways in the order of their subnets. */
  function Targets(gateways: map<nat, Address>, from: nat): seq<Address>
    decreases |SUBNETS| - from
  {
    if from >= |SUBNETS| then []
    else (if from in gateways then [gateways[from]] else []) + Targets(gateways, from + 1)
  }

  function ForwardTo(targets: seq<Address>, sender: Address, command: byte, args: seq<byte>): seq<Datagram> {
    if targets == [] then []
    else [Datagram(Some(targets[0]), FORWARD, [command] + args, Some(sender))]
         + ForwardTo(targets[1..], sender, command, args)
  }

  /** forward: what a node sends on for a command it dispatched. */
  function Forwards(isGateway: bool, targets: seq<Address>, sender: Address, command: byte,
                    args: seq<byte>): seq<Datagram>
  {
    if isGateway && Forwardable(command) then ForwardTo(targets, sender, command, args) else []
  }

  /** on_forward: what a node multicasts for a command unwrapped from a Forward; the command
      is dispatched locally iff something is sent. */
  function Unwraps(isGateway: bool, sender: Address, command: byte, args: seq<byte>): seq<Datagram> {
    if isGateway && Forwardable(command) then [Datagram(None, command, args, Some(sender))] else []
  }

  /** All that dispatch relays for a command that arrived. */
  function Sends(isGateway: bool, targets: seq<Address>, sender: Address, command: byte, args: seq<byte>,
                 forward: bool): seq<Datagram>
  {
    if !Valid(command, |args|) then []
    else (if command == FORWARD then Unwraps(isGateway, sender, args[0], args[1..]) else [])
         + (if forward then Forwards(isGateway, targets, sender, command, args) else [])
  }

  /** The command that dispatch hands to the handlers of its own node, if any: the one that
      arrived, or the one unwrapped from a Forward. */
  function Handles(isGateway: bool, sender: Address, command: byte, args: seq<byte>): Option<(byte, seq<byte>)> {
    if !Valid(command, |args|) then None
    else if command != FORWARD then Some((command, args))
    else if Unwraps(isGateway, sender, args[0], args[1..]) != [] && Valid(args[0], |args| - 1)
      then Some((args[0], args[1..])) else None
  }

  /** Whatever the table, a Forward is never forwarded again, wrapped or unwrapped. */
  lemma ForwardStops(isGateway: bool, targets: seq<Address>, sender: Address, args: seq<byte>)
    ensures Forwards(isGateway, targets, sender, FORWARD, args) == []
    ensures Unwraps(isGateway, sender, FORWARD, args) == []
  {
  }

  // ---- forward as written

  /** A size as forward takes it, in a signed char. */
  function SignedChar(n: nat): int
    requires n < 256
  {
    if n < 128 then n else n - 256
  }

  /** Allocating a negative number of bytes fails; copying a negative number of bytes, as a
      huge one, leaves the buffer. */
  datatype Forwarded = Relayed(sent: seq<Datagram>) | AllocationFails | CopyLeavesBuffer

  /** forward with its size in a signed char; Forwards is the same with any size. */
  function ForwardAsWritten(isGateway: bool, targets: seq<Address>, sender: Address, command: byte,
                            args: seq<byte>): Forwarded
    requires |args| < 256
  {
    var argsSize := SignedChar(|args|);
    if !isGateway || !Forwardable(command) then Relayed([])
    else if argsSize + 1 < 0 then AllocationFails
    else if argsSize < 0 then CopyLeavesBuffer
    else Relayed(ForwardTo(targets, sender, command, args[..argsSize]))
  }

  /** As written a gateway relays a forwardable command, and then completely, iff it has at
      most 127 argument bytes; on any longer one it fails before it has sent anything. */
  lemma RelayedIffShort(isGateway: bool, targets: seq<Address>, sender: Address, command: byte, args: seq<byte>)
    requires |args| < 256
    ensures ForwardAsWritten(isGateway, targets, sender, command, args) ==
            if isGateway && Forwardable(command) && |args| == 255 then CopyLeavesBuffer
            else if isGateway && Forwardable(command) && |args| > 127 then AllocationFails
            else Relayed(Forwards(isGateway, targets, sender, command, args))
  {
    assert args[..|args|] == args;
  }

  /** Before subnet i: what is still to be sent to completes `target`. */
  ghost predicate Forwarding(target: seq<Datagram>, sent: seq<Datagram>, gateways: map<nat, Address>, i: nat,
                             sender: Address, command: byte, args: seq<byte>)
  {
    sent + ForwardTo(Targets(gateways, i), sender, command, args) == target
  }

  lemma ForwardTurn(target: seq<Datagram>, sent: seq<Datagram>, gateways: map<nat, Address>, i: nat,
                    sender: Address, command: byte, args: seq<byte>)
    requires i < |SUBNETS| && Forwarding(target, sent, gateways, i, sender, command, args)
    ensures Forwarding(target,
                       if i in gateways
                       then sent + [Datagram(Some(gateways[i]), FORWARD, [command] + args, Some(sender))] else sent,
                       gateways, i + 1, sender, command, args)
  {
    if i in gateways {
      assert Targets(gateways, i)[0] == gateways[i];
      assert Targets(gateways, i)[1..] == Targets(gateways, i + 1);
    } else {
      assert Targets(gateways, i) == Targets(gateways, i + 1);
    }
  }

  class MulticastGateway {
    var gatewayAddress: Address
    var iAmTheGateway: bool
    var watched: bool
    var gateways: map<nat, Address>
    var missedPings: int
    var sent: seq<Datagram>

    /** `garbage` is what the uninitialised counter held; the first ping is missed at once. */
    constructor (garbage: int)
      ensures !iAmTheGateway && !watched && gateways == map[] && sent == []
      ensures missedPings == garbage + 1
    {
      gatewayAddress, iAmTheGateway, watched, gateways, sent := ANY_ADDRESS, false, false, map[], [];
      missedPings := garbage;
      new;
      var lost, rearmed := PingTimer(false);
    }

    /** Registers the callback for a lost gateway. */
    method OnTimeout()
      modifies this`watched
      ensures watched
    {
      watched := true;
    }

    method Update(address: Address, isThisMe: bool)
      modifies this
      ensures gatewayAddress == address && iAmTheGateway == isThisMe
      ensures gateways == old(gateways) && missedPings == old(missedPings) && watched == old(watched)
      ensures |sent| == |old(sent)| + if isThisMe then |SUBNETS| else 0
      ensures sent[..|old(sent)|] == old(sent)
      ensures forall i :: 0 <= i < |sent| - |old(sent)| ==>
                sent[|old(sent)| + i] == Datagram(Some(Broadcast(i)), REMOTE_GATEWAY, [], None)
    {
      gatewayAddress := address;
      iAmTheGateway := isThisMe;
      if iAmTheGateway {
        for i := 0 to |SUBNETS|
          invariant gatewayAddress == address && iAmTheGateway == isThisMe
          invariant gateways == old(gateways) && missedPings == old(missedPings) && watched == old(watched)
          invariant |sent| == |old(sent)| + i && sent[..|old(sent)|] == old(sent)
          invariant forall j :: 0 <= j < i ==>
                      sent[|old(sent)| + j] == Datagram(Some(Broadcast(j)), REMOTE_GATEWAY, [], None)
        {
          sent := sent + [Datagram(Some(Broadcast(i)), REMOTE_GATEWAY, [], None)];
        }
      }
    }

    /** Every two seconds, until the wait fails; `lost` tells the election that the gateway
        timed out. */
    method PingTimer(failed: bool) returns (lost: bool, rearmed: bool)
      modifies this`sent, this`missedPings
      ensures sent == old(sent) + if iAmTheGateway && !failed then [Datagram(None, GATEWAY, [], None)] else []
      ensures missedPings == old(missedPings) + if iAmTheGateway || failed then 0 else 1
      ensures lost <==> !failed && !iAmTheGateway && watched && old(missedPings) >= 2
      ensures rearmed <==> !failed
    {
      lost, rearmed := false, false;
      if failed {
        return;
      }
      if iAmTheGateway {
        sent := sent + [Datagram(None, GATEWAY, [], None)];
      } else {
        missedPings := missedPings + 1;
        if missedPings > 2 && watched {
          lost := true;
        }
      }
      rearmed := true;
    }

    method OnGateway()
      modifies this`missedPings
      ensures missedPings == 0
    {
      missedPings := 0;
    }

    /** A gateway learns the gateway of the one subnet that hosts the sender. */
    method OnRemoteGateway(sender: Address)
      modifies this`gateways
      ensures forall i :: 0 <= i < |SUBNETS| && iAmTheGateway && Hosts(i, sender) ==>
                gateways == old(gateways)[i := sender]
      ensures (!iAmTheGateway || forall i :: 0 <= i < |SUBNETS| ==> !Hosts(i, sender)) ==>
                gateways == old(gateways)
      ensures gateways == Learned(iAmTheGateway, old(gateways), sender)
    {
      if !iAmTheGateway {
        return;
      }
      for i := 0 to |SUBNETS|
        invariant gateways == old(gateways)
        invariant SubnetOf(sender, i) == SubnetOf(sender, 0)
        invariant forall j :: 0 <= j < i ==> !Hosts(j, sender)
      {
        if Hosts(i, sender) {
          gateways := gateways[i := sender];
          forall j | 0 <= j < |SUBNETS| && j != i ensures !Hosts(j, sender) {
            if j > i {
              SubnetsDisjoint(i, j, sender);
            }
          }
          break;
        }
      }
    }

    method Forward(sender: Address, command: byte, args: seq<byte>)
      modifies this`sent
      ensures sent == old(sent) + Forwards(iAmTheGateway, Targets(gateways, 0), sender, command, args)
    {
      if !iAmTheGateway || !Forwardable(command) {
        return;
      }
      var forwardData := [command] + args;
      ghost var target := sent + ForwardTo(Targets(gateways, 0), sender, command, args);
      var i: nat := 0;
      while i < |SUBNETS|
        invariant i <= |SUBNETS|
        invariant Forwarding(target, sent, gateways, i, sender, command, args)
      {
        ForwardTurn(target, sent, gateways, i, sender, command, args);
        if i in gateways {
          sent := sent + [Datagram(Some(gateways[i]), FORWARD, forwardData, Some(sender))];
        }
        i := i + 1;
      }
      assert Targets(gateways, i) == [];
    }

    /** `inject`: the caller dispatches the command locally, without forwarding it. */
    method OnForward(sender: Address, command: byte, data: seq<byte>) returns (inject: bool)
      modifies this`sent
      ensures sent == old(sent) + Unwraps(iAmTheGateway, sender, command, data)
      ensures inject <==> Unwraps(iAmTheGateway, sender, command, data) != []
    {
      inject := false;
      if !iAmTheGateway {
        return;
      }
      if !Forwardable(command) {
        return;
      }
      sent := sent + [Datagram(None, command, data, Some(sender))];
      inject := true;
    }
  }
}
