/** The dispatch of commands to their handlers (MulticastHandler.cpp). */
module Handlers {
  import opened Hashes
  import opened Endian
  import opened Elections
  import opened Frames
  import opened Gateways
  import opened SearchReplies

  /** The files that match a search, in the order of the index. */
  type Search = seq<byte> -> seq<Match>

  /** What dispatch does to the election of its node; `random` is drawn if it starts. */
  function ElectionAfter(e: Election, sender: Address, command: byte, args: seq<byte>, random: uint32): Election {
    if !Valid(command, |args|) then e
    else if command == CANDIDATE then Registered(e, sender, FromBigEndian32(args), random)
    else if command == ELECT_GATEWAY then Started(e, random)
    else e
  }

  /** What the handler of a command sends: a search is answered. */
  function Replies(search: Search, sender: Address, command: byte, args: seq<byte>): seq<Datagram> {
    if command == SEARCH_FILE_NAME && Valid(command, |args|)
    then [Datagram(Some(sender), SEARCH_FILE_NAME_REPLY, PrintAll(Emitted(search(args), 0)), None)]
    else []
  }

  /** All that dispatch sends: what the handler of the command sends, or of the one unwrapped
      after it was multicast, and then what is forwarded. */
  function Sent(search: Search, isGateway: bool, targets: seq<Address>, sender: Address, command: byte,
                args: seq<byte>, forward: bool): seq<Datagram>
  {
    var handled := Handles(isGateway, sender, command, args);
    var replies := if handled.Some? then Replies(search, sender, handled.value.0, handled.value.1) else [];
    if command == FORWARD then Sends(isGateway, targets, sender, command, args, forward) + replies
    else replies + Sends(isGateway, targets, sender, command, args, forward)
  }

  /** What a dispatched Forward amounts to: unwrapping, and dispatch of what was unwrapped,
      which relays nothing more and concerns neither the election nor the table. */
  lemma ForwardUnwraps(isGateway: bool, targets: seq<Address>, sender: Address, args: seq<byte>, forward: bool,
                       e: Election, random: uint32)
    requires args != []
    ensures Sends(isGateway, targets, sender, FORWARD, args, forward)
         == Unwraps(isGateway, sender, args[0], args[1..])
    ensures if Unwraps(isGateway, sender, args[0], args[1..]) == []
            then Handles(isGateway, sender, FORWARD, args) == None
            else && Forwardable(args[0])
                 && Sends(isGateway, targets, sender, args[0], args[1..], false) == []
                 && Handles(isGateway, sender, FORWARD, args) == Handles(isGateway, sender, args[0], args[1..])
                 && ElectionAfter(e, sender, args[0], args[1..], random) == e
    ensures ElectionAfter(e, sender, FORWARD, args, random) == e
  {
    assert Unwraps(isGateway, sender, args[0], args[1..]) + [] == Unwraps(isGateway, sender, args[0], args[1..]);
  }

  /** The replies after an unwrapped command. */
  lemma UnwrappedReplies(search: Search, isGateway: bool, targets: seq<Address>, sender: Address, args: seq<byte>,
                         forward: bool)
    requires args != []
    ensures Sent(search, isGateway, targets, sender, FORWARD, args, forward) ==
            Unwraps(isGateway, sender, args[0], args[1..])
            + if Unwraps(isGateway, sender, args[0], args[1..]) == [] then []
              else Sent(search, isGateway, targets, sender, args[0], args[1..], false)
  {
    ForwardUnwraps(isGateway, targets, sender, args, forward, IDLE, 0);
    var handled := Handles(isGateway, sender, FORWARD, args);
    var replies := if handled.Some? then Replies(search, sender, handled.value.0, handled.value.1) else [];
    assert replies + [] == replies;
  }

  // ---- The commands by number and size

  /** Which commands that are no Forward reach their handlers. */
  lemma PlainIsHandledIff(isGateway: bool, sender: Address, command: byte, args: seq<byte>)
    requires command != 2
    ensures Handles(isGateway, sender, command, args) ==
            if (command == 0 && |args| == 4)
               || (command in {1, 3, 6} && args == [])
               || (command in {4, 7} && |args| > 4)
               || (command in {5, 9, 10} && |args| >= 1)
            then Some((command, args)) else None
  {
  }

  /** What a Forward hands on: at a gateway only, and only the four commands it forwards. */
  lemma ForwardIsHandledIff(isGateway: bool, sender: Address, args: seq<byte>)
    ensures Handles(isGateway, sender, 2, args) ==
            if isGateway && |args| >= 1
               && ((args[0] in {4, 7} && |args| > 5) || (args[0] in {5, 9} && |args| >= 2))
            then Some((args[0], args[1..])) else None
  {
  }

  /** An ElectGateway packet leaves the node waiting, listed under the id it drew and sent. */
  lemma ElectGatewayStarts(e: Election, sender: Address, random: uint32)
    ensures var e' := ElectionAfter(e, sender, 1, [], random);
            && e'.inProgress && e'.armed && e'.myId == random
            && e'.candidates == [Candidate(random, ANY_ADDRESS)] && e'.applied == e.applied + [random]
  {
  }

  /** A Candidate packet registers the sender under the id that was sent. */
  lemma CandidateArrives(e: Election, sender: Address, id: uint32, random: uint32)
    ensures ElectionAfter(e, sender, 0, BigEndian32(id), random) == Handle(e, Register(sender, id, random))
  {
    BigEndian32RoundTrip(id);
  }

  /** A gateway that hears an announcement enters the sender for the subnet that hosts it. */
  lemma AnnouncementIsLearned(isGateway: bool, gateways: map<nat, Address>, sender: Address)
    ensures forall i :: 0 <= i < 5 && isGateway && Hosts(i, sender) ==>
              Learned(isGateway, gateways, sender) == gateways[i := sender]
    ensures !isGateway || (forall i :: 0 <= i < 5 ==> !Hosts(i, sender)) ==>
              Learned(isGateway, gateways, sender) == gateways
  {
    forall i | 0 <= i < 5 && Hosts(i, sender) ensures SubnetOf(sender, 0) == i {
      SubnetOfHost(i, sender, 0);
    }
  }

  /** No other command touches the election. */
  lemma OthersLeaveElection(e: Election, sender: Address, command: byte, args: seq<byte>, random: uint32)
    requires command > 1
    ensures ElectionAfter(e, sender, command, args, random) == e
  {
  }

  /** The packets that elections and gateways put out are handled wherever they arrive. */
  lemma OwnPacketsAreHandled(isGateway: bool, sender: Address, id: uint32)
    ensures Handles(isGateway, sender, CANDIDATE, BigEndian32(id)) == Some((CANDIDATE, BigEndian32(id)))
    ensures Handles(isGateway, sender, ELECT_GATEWAY, []) == Some((ELECT_GATEWAY, []))
    ensures Handles(isGateway, sender, GATEWAY, []) == Some((GATEWAY, []))
    ensures Handles(isGateway, sender, REMOTE_GATEWAY, []) == Some((REMOTE_GATEWAY, []))
  {
  }

  /** A search is answered to the asker, by SearchFileNameReply from this node, with the
      longest prefix of the matches that fits; nothing else is answered. */
  lemma RepliesMeaning(search: Search, sender: Address, command: byte, args: seq<byte>)
    ensures if command == 9 && args != [] then
              var prefix := Emitted(search(args), 0);
              && prefix <= search(args)
              && Replies(search, sender, command, args) == [Datagram(Some(sender), 10, PrintAll(prefix), None)]
              && |PrintAll(prefix)| <= 251
            else Replies(search, sender, command, args) == []
  {
    EmittedIsLongestFit(search(args), 0);
  }

  lemma NothingSent(search: Search, isGateway: bool, targets: seq<Address>, sender: Address, command: byte,
                    args: seq<byte>, forward: bool)
    requires !Valid(command, |args|)
    ensures Sent(search, isGateway, targets, sender, command, args, forward) == []
    ensures Handles(isGateway, sender, command, args) == None
  {
  }

  /** A plain command: the reply of its handler, then what is forwarded. */
  lemma PlainSent(search: Search, isGateway: bool, targets: seq<Address>, sender: Address, command: byte,
                  args: seq<byte>, forward: bool)
    requires Valid(command, |args|) && command != FORWARD
    ensures Sent(search, isGateway, targets, sender, command, args, forward) ==
            Replies(search, sender, command, args)
            + if forward then Forwards(isGateway, targets, sender, command, args) else []
    ensures Handles(isGateway, sender, command, args) == Some((command, args))
  {
    var forwards := if forward then Forwards(isGateway, targets, sender, command, args) else [];
    assert [] + forwards == forwards;
  }

  /** A Forward is not forwarded. */
  lemma ForwardSent(search: Search, isGateway: bool, targets: seq<Address>, sender: Address, args: seq<byte>,
                    forward: bool, e: Election, random: uint32)
    requires args != []
    ensures Sent(search, isGateway, targets, sender, FORWARD, args, forward)
         == Sent(search, isGateway, targets, sender, FORWARD, args, false)
    ensures Forwards(isGateway, targets, sender, FORWARD, args) == []
    ensures ElectionAfter(e, sender, FORWARD, args, random) == e
  {
    ForwardUnwraps(isGateway, targets, sender, args, forward, e, random);
    ForwardUnwraps(isGateway, targets, sender, args, false, e, random);
  }

  /** Only an announcement changes the table, and it is not forwarded. */
  lemma RelayUnaffected(isGateway: bool, was: seq<Address>, targets: seq<Address>, sender: Address, command: byte,
                        args: seq<byte>)
    requires was == targets || command == REMOTE_GATEWAY
    ensures Forwards(isGateway, targets, sender, command, args) == Forwards(isGateway, was, sender, command, args)
  {
  }

  lemma SentInTurn(before: seq<Datagram>, a: seq<Datagram>, b: seq<Datagram>)
    ensures (before + a) + b == before + (a + b)
    ensures before + [] == before
  {
  }

  /** `handled` records the calls of the command handlers; those that reach the gateway, the
      election or the network are carried out. The gateway's `sent` is the log of the one
      network that both use. */
  class MulticastHandler {
    const gateway: MulticastGateway
    const election: GatewayElection
    const search: Search
    var handled: seq<(Address, byte, seq<byte>)>

    constructor (gateway: MulticastGateway, election: GatewayElection, search: Search)
      ensures this.gateway == gateway && this.election == election && this.search == search && handled == []
    {
      this.gateway, this.election, this.search := gateway, election, search;
      handled := [];
    }

    /** on_searchFileName */
    method AnswerSearch(sender: Address, args: seq<byte>)
      requires Valid(SEARCH_FILE_NAME, |args|)
      modifies gateway`sent
      ensures gateway.sent == old(gateway.sent) + Replies(search, sender, SEARCH_FILE_NAME, args)
    {
      var answer := BuildAnswer(search(args));
      gateway.sent := gateway.sent + [Datagram(Some(sender), SEARCH_FILE_NAME_REPLY, answer, None)];
    }

    method CallHandler(sender: Address, command: byte, args: seq<byte>, random: uint32)
      requires Valid(command, |args|) && command != FORWARD
      modifies this, gateway`sent, gateway`gateways, gateway`missedPings, election
      ensures handled == old(handled) + [(sender, command, args)]
      ensures gateway.sent == old(gateway.sent) + Replies(search, sender, command, args)
      ensures election.State() == ElectionAfter(old(election.State()), sender, command, args, random)
      ensures gateway.gateways == if command == REMOTE_GATEWAY
                                  then Learned(gateway.iAmTheGateway, old(gateway.gateways), sender)
                                  else old(gateway.gateways)
      ensures gateway.missedPings == if command == GATEWAY then 0 else old(gateway.missedPings)
    {
      handled := handled + [(sender, command, args)];
      if command == CANDIDATE {
        election.RegisterCandidate(sender, FromBigEndian32(args), random);
      } else if command == ELECT_GATEWAY {
        election.Begin(random);
      } else if command == GATEWAY {
        gateway.OnGateway();
      } else if command == REMOTE_GATEWAY {
        gateway.OnRemoteGateway(sender);
      } else if command == SEARCH_FILE_NAME {
        AnswerSearch(sender, args);
      }
    }

    /** on_forward: what is unwrapped is dispatched again, without forwarding. */
    method HandleForward(sender: Address, args: seq<byte>, random: uint32)
      requires args != []
      modifies this, gateway`sent, gateway`gateways, gateway`missedPings, election
      ensures gateway.sent == old(gateway.sent) +
                Sent(search, gateway.iAmTheGateway, Targets(old(gateway.gateways), 0), sender, FORWARD, args, false)
      ensures match Handles(gateway.iAmTheGateway, sender, FORWARD, args)
              case None => handled == old(handled)
              case Some(h) => handled == old(handled) + [(sender, h.0, h.1)]
      ensures election.State() == old(election.State())
      ensures gateway.gateways == old(gateway.gateways) && gateway.missedPings == old(gateway.missedPings)
      decreases |args|, 0
    {
      ghost var isGateway, targets := gateway.iAmTheGateway, Targets(gateway.gateways, 0);
      ForwardUnwraps(isGateway, targets, sender, args, false, election.State(), random);
      UnwrappedReplies(search, isGateway, targets, sender, args, false);
      var inject := gateway.OnForward(sender, args[0], args[1..]);
      if inject {
        Dispatch(sender, args[0], args[1..], false, random);
      }
    }

    /** A plain command: its handler, then the gateway. */
    method HandlePlain(sender: Address, command: byte, args: seq<byte>, forward: bool, random: uint32)
      requires Valid(command, |args|) && command != FORWARD
      modifies this, gateway`sent, gateway`gateways, gateway`missedPings, election
      ensures gateway.sent == old(gateway.sent) + (Replies(search, sender, command, args) +
                if !forward then []
                else Forwards(gateway.iAmTheGateway, Targets(old(gateway.gateways), 0), sender, command, args))
      ensures handled == old(handled) + [(sender, command, args)]
      ensures election.State() == ElectionAfter(old(election.State()), sender, command, args, random)
      ensures gateway.gateways == if command == REMOTE_GATEWAY
                                  then Learned(gateway.iAmTheGateway, old(gateway.gateways), sender)
                                  else old(gateway.gateways)
      ensures gateway.missedPings == if command == GATEWAY then 0 else old(gateway.missedPings)
    {
      ghost var isGateway, targets, before := gateway.iAmTheGateway, Targets(gateway.gateways, 0), gateway.sent;
      ghost var replies := Replies(search, sender, command, args);
      CallHandler(sender, command, args, random);
      ghost var between := gateway.sent;
      assert between == before + replies;
      if forward {
        ghost var now := Targets(gateway.gateways, 0);
        ghost var relayed := Forwards(isGateway, now, sender, command, args);
        RelayUnaffected(isGateway, targets, now, sender, command, args);
        gateway.Forward(sender, command, args);
        assert gateway.sent == between + relayed;
        SentInTurn(before, replies, relayed);
      } else {
        SentInTurn(before, replies, []);
        SentInTurn(between, [], []);
      }
    }

    method Dispatch(sender: Address, command: byte, args: seq<byte>, forward: bool, random: uint32)
      modifies this, gateway`sent, gateway`gateways, gateway`missedPings, election
      ensures gateway.sent == old(gateway.sent) +
                Sent(search, gateway.iAmTheGateway, Targets(old(gateway.gateways), 0), sender, command, args, forward)
      ensures match Handles(gateway.iAmTheGateway, sender, command, args)
              case None => handled == old(handled)
              case Some(h) => handled == old(handled) + [(sender, h.0, h.1)]
      ensures election.State() == ElectionAfter(old(election.State()), sender, command, args, random)
      ensures gateway.gateways == if command == 6 && args == []
                                  then Learned(gateway.iAmTheGateway, old(gateway.gateways), sender)
                                  else old(gateway.gateways)
      ensures gateway.missedPings == if command == 3 && args == [] then 0 else old(gateway.missedPings)
      decreases |args|, 1
    {
      ghost var isGateway, targets, before := gateway.iAmTheGateway, Targets(gateway.gateways, 0), gateway.sent;
      if !Valid(command, |args|) {
        NothingSent(search, isGateway, targets, sender, command, args, forward);
        SentInTurn(before, [], []);
      } else if command == FORWARD {
        ForwardSent(search, isGateway, targets, sender, args, forward, election.State(), random);
        HandleForward(sender, args, random);
        if forward {
          SentInTurn(gateway.sent, [], []);
          gateway.Forward(sender, command, args);
        }
      } else {
        PlainSent(search, isGateway, targets, sender, command, args, forward);
        HandlePlain(sender, command, args, forward, random);
      }
    }
  }
}
