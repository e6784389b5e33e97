/** One node through any history of events: starts and restarts, completions of cancelled
    waits, candidates whenever they come, timers. What a round of the election counts is
    what arrives between its start and the first completion handled after it. */
module Rounds {
  import opened Hashes
  import opened Endian
  import opened Elections

  /** The event makes the node start or restart. */
  predicate Starts(e: Election, v: Event) {
    match v
    case Start(_) => true
    case Lost(_) => !e.inProgress
    case Register(host, id, _) => e.inProgress && Find(e.candidates, id).Some? && Find(e.candidates, id).value != host
    case _ => false
  }

  /** The event is the completion of a wait. */
  predicate Completes(e: Election, v: Event) {
    (v.Fire? && e.armed) || (v.HandleAborted? && e.aborted > 0)
  }

  /** The id that a start draws. */
  function Drawn(v: Event): uint32 {
    match v
    case Start(random) => random
    case Lost(random) => random
    case Register(_, _, redraw) => redraw
    case _ => 0
  }

  /** The node after the first s events of its history. */
  function After(history: seq<Event>, s: nat): Election
    requires s <= |history|
  {
    HandleAll(IDLE, history[..s])
  }

  lemma OneMore(history: seq<Event>, s: nat)
    requires s < |history|
    ensures After(history, s + 1) == Handle(After(history, s), history[s])
  {
    assert history[..s + 1] == history[..s] + [history[s]];
    HandleAppend(IDLE, history[..s], [history[s]]);
    assert [history[s]][1..] == [];
  }

  /** What any event does to the node's bookkeeping: a start multicasts the id it draws and
      lists the node under it, cancels a running wait and arms a new one; a completion ends
      the election; a cancelled wait is completed once. */
  lemma OneEvent(e: Election, v: Event)
    ensures Handle(e, v).applied == e.applied + if Starts(e, v) then [Drawn(v)] else []
    ensures Handle(e, v).myId == if Starts(e, v) then Drawn(v) else e.myId
    ensures Starts(e, v) ==> Handle(e, v).candidates == [Candidate(Drawn(v), ANY_ADDRESS)]
    ensures Handle(e, v).inProgress <==> Starts(e, v) || (e.inProgress && !Completes(e, v))
    ensures Handle(e, v).armed <==> Starts(e, v) || (e.armed && v != Fire)
    ensures Handle(e, v).aborted == e.aborted + (if Starts(e, v) && e.armed then 1 else 0)
                                    - (if v == HandleAborted && e.aborted > 0 then 1 else 0)
  {
  }

  /** Over any history exactly the starts multicast a candidate, each the id it drew. */
  lemma AppliedOneMore(history: seq<Event>, s: nat)
    requires s < |history|
    ensures After(history, s + 1).applied == After(history, s).applied
              + if Starts(After(history, s), history[s]) then [Drawn(history[s])] else []
  {
    OneMore(history, s);
    OneEvent(After(history, s), history[s]);
  }

  /** The node starts at `begin`, the first completion after that is at `close`, and the
      timer fires at `fire`. */
  datatype Round = Round(begin: nat, close: nat, fire: nat)

  /** The last round of a history. */
  predicate LastRound(history: seq<Event>, r: Round) {
    && r.begin < r.close <= r.fire < |history|
    && Starts(After(history, r.begin), history[r.begin])
    && Completes(After(history, r.close), history[r.close])
    && (forall s :: r.begin < s < r.close ==> !Completes(After(history, s), history[s]))
    && history[r.fire] == Fire && (forall s :: r.begin < s < r.fire ==> history[s] != Fire)
    && (forall s :: r.begin < s < |history| ==> !Starts(After(history, s), history[s]))
  }

  /** A candidate packet among these events. */
  predicate Lists(seen: seq<Event>, c: Candidate) {
    exists k :: 0 <= k < |seen| && seen[k].Register? && seen[k].id == c.id && seen[k].host == c.host
  }

  /** The table is the node itself and the candidates seen, in the order of their ids. */
  ghost predicate TableFrom(seen: seq<Event>, id: uint32, table: Table) {
    Ordered(table) && forall c :: c in table <==> c == Candidate(id, ANY_ADDRESS) || Lists(seen, c)
  }

  /** What a round counts. */
  function Window(history: seq<Event>, r: Round): seq<Event>
    requires r.begin < r.close <= |history|
  {
    history[r.begin + 1..r.close]
  }

  lemma ListsOneMore(seen: seq<Event>, v: Event, c: Candidate)
    ensures Lists(seen + [v], c) <==> Lists(seen, c) || (v.Register? && v.id == c.id && v.host == c.host)
  {
    if v.Register? && v.id == c.id && v.host == c.host {
      assert (seen + [v])[|seen|] == v;
    }
    if k :| 0 <= k < |seen| && seen[k].Register? && seen[k].id == c.id && seen[k].host == c.host {
      assert (seen + [v])[k] == seen[k];
    }
  }

  /** An event that neither starts the node nor completes a wait. */
  lemma TableOneMore(seen: seq<Event>, e: Election, v: Event)
    requires e.inProgress && TableFrom(seen, e.myId, e.candidates)
    requires !Starts(e, v) && !Completes(e, v)
    ensures TableFrom(seen + [v], e.myId, Handle(e, v).candidates)
    ensures Handle(e, v) == e.(candidates := Handle(e, v).candidates)
  {
    forall c ensures Lists(seen + [v], c) <==> Lists(seen, c) || (v.Register? && v.id == c.id && v.host == c.host) {
      ListsOneMore(seen, v, c);
    }
    if v.Register? {
      FindMeaning(e.candidates, v.id);
      if Find(e.candidates, v.id).None? {
        InsertMeaning(e.candidates, Candidate(v.id, v.host));
      }
    }
  }

  /** A round that is open: the node waits, and its table is exactly itself and the
      candidates it was sent since its start. */
  ghost predicate Open(history: seq<Event>, r: Round, s: nat)
    requires r.begin < s <= |history|
  {
    var e := After(history, s);
    && e.inProgress && e.armed && e.myId == Drawn(history[r.begin])
    && e.decisions == After(history, r.begin).decisions
    && TableFrom(history[r.begin + 1..s], e.myId, e.candidates)
  }

  lemma {:induction false} RoundIsOpen(history: seq<Event>, r: Round, s: nat)
    requires LastRound(history, r) && r.begin < s <= r.close
    ensures Open(history, r, s)
    decreases s
  {
    OneMore(history, s - 1);
    if s == r.begin + 1 {
      assert history[r.begin + 1..s] == [];
    } else {
      RoundIsOpen(history, r, s - 1);
      TableOneMore(history[r.begin + 1..s - 1], After(history, s - 1), history[s - 1]);
      assert history[r.begin + 1..s] == history[r.begin + 1..s - 1] + [history[s - 1]];
    }
  }

  /** A completion closes the round; from then on to its timer nothing is counted. */
  lemma {:induction false} RoundIsShut(history: seq<Event>, r: Round, s: nat)
    requires LastRound(history, r) && r.close < s <= r.fire
    ensures var e, closed := After(history, s), After(history, r.close);
            !e.inProgress && e.armed && e.myId == closed.myId && e.candidates == closed.candidates
            && e.decisions == closed.decisions
    decreases s
  {
    OneMore(history, s - 1);
    if s == r.close + 1 {
      RoundIsOpen(history, r, r.close);
    } else {
      RoundIsShut(history, r, s - 1);
    }
  }

  /** When its timer fires a node's table is exactly itself and the candidates received after
      its last start and before the first completion handled after that. */
  lemma TableWhenFiring(history: seq<Event>, r: Round)
    requires LastRound(history, r)
    ensures var e := After(history, r.fire);
            && e.armed && e.myId == Drawn(history[r.begin])
            && e.decisions == After(history, r.begin).decisions
            && TableFrom(Window(history, r), e.myId, e.candidates)
  {
    RoundIsOpen(history, r, r.close);
    if r.close < r.fire {
      RoundIsShut(history, r, r.fire);
    }
  }

  /** From the start of its last round on, the last id a node multicast is the one that round
      drew. */
  lemma {:induction false} LastApplied(history: seq<Event>, r: Round, s: nat)
    requires LastRound(history, r) && r.begin < s <= |history|
    ensures var e := After(history, s);
            e.applied != [] && e.applied[|e.applied| - 1] == Drawn(history[r.begin])
    decreases s
  {
    AppliedOneMore(history, s - 1);
    if s > r.begin + 1 {
      LastApplied(history, r, s - 1);
    }
  }

  /** While a round is open the id last multicast is the node's own, and the one under which
      it lists itself. */
  lemma OpenRoundIsConsistent(history: seq<Event>, r: Round, s: nat)
    requires LastRound(history, r) && r.begin < s <= r.close
    ensures var e := After(history, s);
            && e.applied != [] && e.applied[|e.applied| - 1] == e.myId
            && Candidate(e.myId, ANY_ADDRESS) in e.candidates
            && forall c :: c in e.candidates && c.host == ANY_ADDRESS && !Lists(history[r.begin + 1..s], c)
                 ==> c.id == e.myId
  {
    RoundIsOpen(history, r, s);
    LastApplied(history, r, s);
  }

  lemma TableNotEmpty(seen: seq<Event>, id: uint32, table: Table)
    requires TableFrom(seen, id, table)
    ensures table != []
  {
    assert Candidate(id, ANY_ADDRESS) in table;
  }

  /** After its timer, nothing but a new start changes a node's mind. */
  lemma {:induction false} RoundDecides(history: seq<Event>, r: Round, s: nat)
    requires LastRound(history, r) && r.fire < s <= |history|
    ensures After(history, r.fire).candidates != []
    ensures !After(history, s).inProgress && !After(history, s).armed
    ensures After(history, s).decisions == After(history, r.begin).decisions
              + [Choice(After(history, r.fire).candidates, Drawn(history[r.begin]))]
    decreases s
  {
    TableWhenFiring(history, r);
    TableNotEmpty(Window(history, r), After(history, r.fire).myId, After(history, r.fire).candidates);
    OneMore(history, s - 1);
    if s - 1 > r.fire {
      RoundDecides(history, r, s - 1);
    }
  }

  /** Before its first start a node ignores every event. */
  lemma {:induction false} IdleUntilStart(history: seq<Event>, s: nat)
    requires s <= |history| && forall k :: 0 <= k < s ==> !Starts(After(history, k), history[k])
    ensures After(history, s) == IDLE
    decreases s
  {
    if s > 0 {
      OneMore(history, s - 1);
      IdleUntilStart(history, s - 1);
    }
  }

  lemma OnlyItself(id: uint32, table: Table)
    requires TableFrom([], id, table)
    ensures table == [Candidate(id, ANY_ADDRESS)]
  {
    TableNotEmpty([], id, table);
    assert |table| > 1 ==> table[0].id < table[1].id;
    assert forall k :: 0 <= k < |table| ==> table[k] in table;
  }

  /** A round closed by a cancelled wait's completion before anything was received elects
      the node itself, whatever arrives later. */
  lemma ShutAtOnceElectsItself(history: seq<Event>, r: Round)
    requires LastRound(history, r) && r.close == r.begin + 1
    ensures After(history, |history|).decisions
         == After(history, r.begin).decisions + [Decision(ANY_ADDRESS, true)]
  {
    TableWhenFiring(history, r);
    RoundDecides(history, r, |history|);
    assert Window(history, r) == [];
    var table := After(history, r.fire).candidates;
    OnlyItself(Drawn(history[r.begin]), table);
    ElectInRange(Ids(table), 1, 0);
  }
}
