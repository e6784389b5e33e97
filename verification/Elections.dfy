/** One node's side of a gateway election (GatewayElection.cpp). */
module Elections {
  import opened Hashes
  import opened Endian

  type Address = uint32

  /** 0.0.0.0, under which a node registers itself. */
  const ANY_ADDRESS: Address := 0

  datatype Candidate = Candidate(id: uint32, host: Address)

  /** m_candidates: a map ordered by id. */
  type Table = seq<Candidate>

  predicate Ordered(table: Table) {
    forall i, j :: 0 <= i < j < |table| ==> table[i].id < table[j].id
  }

  function Find(table: Table, id: uint32): Option<Address> {
    if table == [] then None
    else if table[0].id == id then Some(table[0].host)
    else Find(table[1..], id)
  }

  function Insert(table: Table, c: Candidate): (r: Table)
    ensures |r| == |table| + 1
  {
    if table == [] then [c]
    else if c.id < table[0].id then [c] + table
    else [table[0]] + Insert(table[1..], c)
  }

  lemma {:induction false} FindMeaning(table: Table, id: uint32)
    requires Ordered(table)
    ensures Find(table, id).None? ==> forall i :: 0 <= i < |table| ==> table[i].id != id
    ensures Find(table, id).Some? ==> Candidate(id, Find(table, id).value) in table
    decreases |table|
  {
    if table != [] && table[0].id != id {
      FindMeaning(table[1..], id);
    }
  }

  lemma {:induction false} InsertMeaning(table: Table, c: Candidate)
    requires Ordered(table) && forall i :: 0 <= i < |table| ==> table[i].id != c.id
    ensures Ordered(Insert(table, c))
    ensures forall x :: x in Insert(table, c) <==> x == c || x in table
    decreases |table|
  {
    if table != [] && table[0].id < c.id {
      var rest := Insert(table[1..], c);
      InsertMeaning(table[1..], c);
      assert forall x :: x in rest ==> table[0].id < x.id;
      forall x ensures x in Insert(table, c) <==> x == c || x in table {
        assert x in table <==> x == table[0] || x in table[1..];
      }
    }
  }

  function Ids(table: Table): (ids: seq<uint32>)
    ensures |ids| == |table|
  {
    seq(|table|, i requires 0 <= i < |table| => table[i].id)
  }

  // ---- The winner's place

  /** The loop over the candidates: unsigned 32-bit addition, then the remainder. */
  function Elect(ids: seq<uint32>, n: nat, elected: nat): nat
    requires n >= 1
  {
    if ids == [] then elected else Elect(ids[1..], n, (elected + ids[0]) % WORD32 % n)
  }

  function Sum(ids: seq<uint32>): nat {
    if ids == [] then 0 else ids[0] + Sum(ids[1..])
  }

  /** How many of the additions wrap around. */
  function Wraps(ids: seq<uint32>, n: nat, elected: nat): nat
    requires n >= 1
  {
    if ids == [] then 0
    else (elected + ids[0]) / WORD32 + Wraps(ids[1..], n, (elected + ids[0]) % WORD32 % n)
  }

  lemma {:induction false} ElectInRange(ids: seq<uint32>, n: nat, elected: nat)
    requires n >= 1 && elected < n
    ensures Elect(ids, n, elected) < n
  {
    if ids != [] {
      ElectInRange(ids[1..], n, (elected + ids[0]) % WORD32 % n);
    }
  }

  lemma {:induction false} ElectAccount(ids: seq<uint32>, n: nat, elected: nat) returns (turns: nat)
    requires n >= 1
    ensures elected + Sum(ids) == Elect(ids, n, elected) + WORD32 * Wraps(ids, n, elected) + n * turns
  {
    if ids == [] {
      turns := 0;
    } else {
      var x, tail := elected + ids[0], ids[1..];
      var next := x % WORD32 % n;
      var rest := ElectAccount(tail, n, next);
      turns := x % WORD32 / n + rest;
      var e, wraps, sum := Elect(tail, n, next), Wraps(tail, n, next), Sum(tail);
      assert Elect(ids, n, elected) == e;
      assert Wraps(ids, n, elected) == x / WORD32 + wraps;
      assert Sum(ids) == ids[0] + sum;
      AccountStep(x, n, sum, e, wraps, rest);
    }
  }

  lemma AccountStep(x: nat, n: nat, sum: nat, e: nat, wraps: nat, rest: nat)
    requires n >= 1
    requires x % WORD32 % n + sum == e + WORD32 * wraps + n * rest
    ensures x + sum == e + WORD32 * (x / WORD32 + wraps) + n * (x % WORD32 / n + rest)
  {
    var t := x % WORD32;
    Distribute(n, t / n, rest);
    assert t == n * (t / n) + t % n;
  }

  lemma RemainderUnique(x: nat, r: nat, n: nat, q: int)
    requires r < n && x == r + n * q
    ensures x % n == r
  {
    var p: int := x / n;
    assert x == n * p + x % n;
    Distribute(n, q - p, p);
    if q > p {
      AtLeastOnce(n, q - p);
    } else if q < p {
      Distribute(n, p - q, q);
      AtLeastOnce(n, p - q);
    }
  }

  lemma SumAndRemainder(sum: nat, e: nat, w: nat, n: nat, turns: nat)
    requires e < n && sum == e + w + n * turns
    ensures e == sum % n <==> w % n == 0
  {
    if w % n == 0 {
      Distribute(n, w / n, turns);
      RemainderUnique(sum, e, n, w / n + turns);
    }
    if e == sum % n {
      Distribute(n, sum / n - turns, turns);
      RemainderUnique(w, 0, n, sum / n - turns);
    }
  }

  /** The place is always in range, and it is the documented (sum of the ids) mod n iff the
      wrapped-off multiples of 2^32 are a multiple of n. */
  lemma WinnerPlace(ids: seq<uint32>)
    requires ids != []
    ensures Elect(ids, |ids|, 0) < |ids|
    ensures Elect(ids, |ids|, 0) == Sum(ids) % |ids| <==> WORD32 * Wraps(ids, |ids|, 0) % |ids| == 0
  {
    var n := |ids|;
    var e, w := Elect(ids, n, 0), WORD32 * Wraps(ids, n, 0);
    ElectInRange(ids, n, 0);
    var turns := ElectAccount(ids, n, 0);
    SumAndRemainder(Sum(ids), e, w, n, turns);
  }

  /** The documented place, whenever every id is at most 2^32 - n. */
  lemma DocumentedPlace(ids: seq<uint32>)
    requires ids != [] && forall k :: 0 <= k < |ids| ==> ids[k] <= WORD32 - |ids|
    ensures Elect(ids, |ids|, 0) == Sum(ids) % |ids|
  {
    var n := |ids|;
    ElectInRange(ids, n, 0);
    NoWraps(ids, n, 0);
    var turns := ElectAccount(ids, n, 0);
    SumAndRemainder(Sum(ids), Elect(ids, n, 0), 0, n, turns);
  }

  lemma {:induction false} NoWraps(ids: seq<uint32>, n: nat, elected: nat)
    requires n >= 1 && elected < n && forall i :: 0 <= i < |ids| ==> ids[i] <= WORD32 - n
    ensures Wraps(ids, n, elected) == 0
  {
    if ids != [] {
      NoWraps(ids[1..], n, (elected + ids[0]) % WORD32 % n);
    }
  }

  // ---- For which numbers of candidates the rule is kept

  predicate Ascending(s: seq<uint32>) {
    forall i, j :: 0 <= i < j < |s| ==> s[i] < s[j]
  }

  /** The code elects the documented place. */
  predicate FollowsRule(ids: seq<uint32>)
    requires ids != []
  {
    Elect(ids, |ids|, 0) == Sum(ids) % |ids|
  }

  /** One more id at the end of the order. */
  lemma {:induction false} LastId(ids: seq<uint32>, last: uint32, n: nat, elected: nat)
    requires n >= 1 && elected < n
    ensures var e := Elect(ids, n, elected);
            && Elect(ids + [last], n, elected) == (e + last) % WORD32 % n
            && Wraps(ids + [last], n, elected) == Wraps(ids, n, elected) + (e + last) / WORD32
  {
    if ids == [] {
      assert [] + [last] == [last] && [last][1..] == [];
    } else {
      assert (ids + [last])[1..] == ids[1..] + [last];
      LastId(ids[1..], last, n, (elected + ids[0]) % WORD32 % n);
    }
  }

  /** 0, 1, ..., m - 1. */
  function FirstIds(m: nat): (ids: seq<uint32>)
    requires m < WORD32
    ensures |ids| == m && Ascending(ids)
  {
    seq(m, i requires 0 <= i < m => i)
  }

  /** n - 1 small ids in order that elect a place other than the first. */
  function Prefix(n: nat): (ids: seq<uint32>)
    requires 3 <= n <= WORD32 / 2
    ensures |ids| == n - 1 && Ascending(ids) && forall k :: 0 <= k < n - 1 ==> ids[k] <= n - 1
  {
    FirstIds(n - 2) + [if Elect(FirstIds(n - 2) + [n - 2], n, 0) >= 1 then n - 2 else n - 1]
  }

  lemma NextRemainder(x: nat, n: nat)
    requires n >= 2 && x % n == 0
    ensures (x + 1) % n == 1
  {
    RemainderUnique(x + 1, 1, n, x / n);
  }

  lemma NoWrapBelow(x: nat)
    requires x < WORD32
    ensures x % WORD32 == x
  {
  }

  /** Of two consecutive last ids one at least elects a later place. */
  lemma OneElectsLater(e: nat, n: nat)
    requires 3 <= n <= WORD32 / 2 && e < n
    ensures (e + (n - 2)) % WORD32 % n == 0 ==> (e + (n - 1)) % WORD32 % n == 1
  {
    NoWrapBelow(e + (n - 2));
    NoWrapBelow(e + (n - 1));
    if (e + (n - 2)) % n == 0 {
      NextRemainder(e + (n - 2), n);
    }
  }

  lemma PrefixElectsLater(n: nat)
    requires 3 <= n <= WORD32 / 2
    ensures Elect(Prefix(n), n, 0) >= 1
  {
    var first := FirstIds(n - 2);
    ElectInRange(first, n, 0);
    LastId(first, n - 2, n, 0);
    LastId(first, n - 1, n, 0);
    OneElectsLater(Elect(first, n, 0), n);
  }

  /** Ids of n candidates, in order, the last of them the largest there is. */
  function Counterexample(n: nat): (ids: seq<uint32>)
    requires 3 <= n <= WORD32 / 2
    ensures |ids| == n && Ascending(ids)
  {
    Prefix(n) + [WORD32 - 1]
  }

  lemma OneWrap(e: nat, n: nat)
    requires 1 <= e < n <= WORD32 / 2
    ensures (e + (WORD32 - 1)) / WORD32 == 1
  {
  }

  /** Exactly one addition wraps, so the code is off by 2^32 modulo n. */
  lemma CounterexampleWraps(n: nat)
    requires 3 <= n <= WORD32 / 2
    ensures FollowsRule(Counterexample(n)) <==> WORD32 % n == 0
  {
    PrefixElectsLater(n);
    ElectInRange(Prefix(n), n, 0);
    NoWraps(Prefix(n), n, 0);
    LastId(Prefix(n), WORD32 - 1, n, 0);
    OneWrap(Elect(Prefix(n), n, 0), n);
    WinnerPlace(Counterexample(n));
  }

  lemma MultipleOfMultiple(a: nat, w: nat, n: nat)
    requires n >= 1 && a % n == 0
    ensures a * w % n == 0
  {
    var q := a / n;
    assert a == q * n;
    assert a * w == n * (q * w);
    RemainderUnique(a * w, 0, n, q * w);
  }

  lemma DividingNumberFollowsRule(ids: seq<uint32>)
    requires ids != [] && WORD32 % |ids| == 0
    ensures FollowsRule(ids)
  {
    WinnerPlace(ids);
    MultipleOfMultiple(WORD32, Wraps(ids, |ids|, 0), |ids|);
  }

  /** For n candidates the code elects the documented place whatever their ids, iff n
      divides 2^32. */
  lemma RuleKeptIffDividing(n: nat)
    requires 1 <= n <= WORD32 / 2
    ensures (forall ids: seq<uint32> | |ids| == n && Ascending(ids) :: FollowsRule(ids)) <==> WORD32 % n == 0
  {
    if WORD32 % n == 0 {
      forall ids: seq<uint32> | |ids| == n && Ascending(ids) ensures FollowsRule(ids) {
        DividingNumberFollowsRule(ids);
      }
    } else {
      assert n >= 3;
      CounterexampleWraps(n);
      assert !FollowsRule(Counterexample(n));
    }
  }

  lemma ThreeIds(a: uint32, b: uint32, c: uint32)
    ensures Sum([a, b, c]) == a + b + c
    ensures Elect([a, b, c], 3, 0) == ((a % WORD32 % 3 + b) % WORD32 % 3 + c) % WORD32 % 3
  {
    assert [a, b, c][1..] == [b, c] && [b, c][1..] == [c];
    assert Sum([c]) == c && Sum([b, c]) == b + Sum([c]);
    var x := a % WORD32 % 3;
    var y := (x + b) % WORD32 % 3;
    assert Elect([a, b, c], 3, 0) == Elect([b, c], 3, x);
    assert Elect([b, c], 3, x) == Elect([c], 3, y);
  }

  /** Three large ids: the documented rule names another candidate than the code. */
  lemma WrapChangesWinner()
    ensures Elect([WORD32 - 5, WORD32 - 2, WORD32 - 1], 3, 0) != Sum([WORD32 - 5, WORD32 - 2, WORD32 - 1]) % 3
  {
    ThreeIds(WORD32 - 5, WORD32 - 2, WORD32 - 1);
  }

  // ---- The state machine

  /** What the notifier is given: the gateway's address, and whether it is this node. */
  datatype Decision = Decision(gateway: Address, isThisMe: bool)

  /** `armed`: a wait on the timer is in flight. `aborted`: completions of cancelled waits
      that have not been handled yet. `applied`: the id of every Candidate multicast.
      `decisions`: every call of the notifier. */
  datatype Election = Election(inProgress: bool, myId: uint32, candidates: Table,
                               armed: bool, aborted: nat, applied: seq<uint32>, decisions: seq<Decision>)

  const IDLE := Election(false, 0, [], false, 0, [], [])

  /** start, with the random id that apply draws. */
  function Started(e: Election, random: uint32): Election {
    e.(candidates := [Candidate(random, ANY_ADDRESS)], myId := random, inProgress := true,
       aborted := if e.armed then e.aborted + 1 else e.aborted, armed := true,
       applied := e.applied + [random])
  }

  /** gatewayTimeout: nothing happens while an election runs. */
  function GatewayLost(e: Election, random: uint32): Election {
    if e.inProgress then e else Started(e, random)
  }

  /** registerCandidate; `random` is drawn only if the id collides. */
  function Registered(e: Election, host: Address, id: uint32, random: uint32): Election {
    if !e.inProgress then e
    else match Find(e.candidates, id)
      case None => e.(candidates := Insert(e.candidates, Candidate(id, host)))
      case Some(known) => if known != host then Started(e, random) else e
  }

  function Choice(table: Table, myId: uint32): Decision
    requires table != []
  {
    ElectInRange(Ids(table), |table|, 0);
    var winner := table[Elect(Ids(table), |table|, 0)];
    Decision(winner.host, winner.id == myId)
  }

  /** timeOut; an aborted wait clears the in-progress flag like any other. */
  function TimedOut(e: Election, wasAborted: bool): Election {
    var e' := e.(inProgress := false);
    if wasAborted || e.candidates == [] then e'
    else e'.(decisions := e.decisions + [Choice(e.candidates, e.myId)])
  }

  datatype Event =
    | Start(random: uint32)
    | Lost(random: uint32)
    | Register(host: Address, id: uint32, redraw: uint32)
    | Fire
    | HandleAborted

  function Handle(e: Election, event: Event): Election {
    match event
    case Start(random) => Started(e, random)
    case Lost(random) => GatewayLost(e, random)
    case Register(host, id, redraw) => Registered(e, host, id, redraw)
    case Fire => if e.armed then TimedOut(e.(armed := false), false) else e
    case HandleAborted => if e.aborted > 0 then TimedOut(e.(aborted := e.aborted - 1), true) else e
  }

  class GatewayElection {
    var inProgress: bool
    var myId: uint32
    var candidates: Table
    var armed: bool
    var aborted: nat
    var applied: seq<uint32>
    var decisions: seq<Decision>

    function State(): Election
      reads this
    {
      Election(inProgress, myId, candidates, armed, aborted, applied, decisions)
    }

    constructor ()
      ensures State() == IDLE
    {
      inProgress, myId, candidates, armed, aborted, applied, decisions := false, 0, [], false, 0, [], [];
    }

    method Begin(random: uint32)
      modifies this
      ensures State() == Started(old(State()), random)
    {
      if armed {
        aborted := aborted + 1;
      }
      candidates := [];
      armed := true;
      inProgress := true;
      myId := random;
      applied := applied + [myId];
      candidates := Insert(candidates, Candidate(myId, ANY_ADDRESS));
    }

    /** `announced`: an ElectGateway is multicast. */
    method GatewayTimeout(random: uint32) returns (announced: bool)
      modifies this
      ensures State() == GatewayLost(old(State()), random)
      ensures announced <==> !old(inProgress)
    {
      announced := !inProgress;
      if announced {
        Begin(random);
      }
    }

    method RegisterCandidate(host: Address, id: uint32, random: uint32)
      modifies this
      ensures State() == Registered(old(State()), host, id, random)
    {
      if inProgress {
        var known := Find(candidates, id);
        if known.None? {
          candidates := Insert(candidates, Candidate(id, host));
        } else if known.value != host {
          Begin(random);
        }
      }
    }

    method TimeOut(wasAborted: bool)
      modifies this
      ensures State() == TimedOut(old(State()), wasAborted)
    {
      inProgress := false;
      if wasAborted {
        return;
      }
      var elected: nat, numCandidates: nat := 0, |candidates|;
      if numCandidates > 0 {
        ghost var ids := Ids(candidates);
        assert ids[0..] == ids;
        for i := 0 to numCandidates
          invariant elected < numCandidates
          invariant Elect(ids[i..], numCandidates, elected) == Elect(ids, numCandidates, 0)
        {
          assert ids[i..][1..] == ids[i + 1..];
          elected := (elected + candidates[i].id) % WORD32 % numCandidates;
        }
        var i: nat := 0;
        ghost var place := elected;
        while elected > 0
          invariant i + elected == place
        {
          elected := elected - 1;
          i := i + 1;
        }
        decisions := decisions + [Decision(candidates[i].host, candidates[i].id == myId)];
      }
    }
  }

  // ---- What a restart does as written

  predicate OnlyRegisters(events: seq<Event>) {
    forall i :: 0 <= i < |events| ==> events[i].Register?
  }

  function HandleAll(e: Election, events: seq<Event>): Election
    decreases |events|
  {
    if events == [] then e else HandleAll(Handle(e, events[0]), events[1..])
  }

  lemma {:induction false} IdleIgnoresCandidates(e: Election, events: seq<Event>)
    requires !e.inProgress && OnlyRegisters(events)
    ensures HandleAll(e, events) == e
    decreases |events|
  {
    if events != [] {
      IdleIgnoresCandidates(e, events[1..]);
    }
  }

  /** Exactly when the completion of a cancelled wait costs a starting node the candidates
      that arrive after it: when its timer was armed or an earlier completion outstanding,
      unless they would have left the table as it was. */
  lemma RestartKeepsCandidatesIff(e: Election, random: uint32, candidates: seq<Event>)
    requires OnlyRegisters(candidates)
    ensures var started := Handle(e, Start(random));
            var handled := Handle(started, HandleAborted);
            HandleAll(handled, candidates).candidates == HandleAll(started, candidates).candidates
            <==> (!e.armed && e.aborted == 0)
                 || HandleAll(started, candidates).candidates == started.candidates
  {
    if e.armed || e.aborted > 0 {
      IdleIgnoresCandidates(Handle(Handle(e, Start(random)), HandleAborted), candidates);
    }
  }

  /** An election restarted while its timer runs, where the cancelled wait's completion is
      handled before the next packet: the node drops every candidate, and when the new wait
      ends it elects itself, whatever the others sent. */
  lemma RestartElectsItself(e: Election, first: uint32, second: uint32, candidates: seq<Event>)
    requires !e.armed && e.aborted == 0 && OnlyRegisters(candidates)
    ensures var restarted := Handle(Handle(Handle(e, Start(first)), Start(second)), HandleAborted);
            HandleAll(restarted, candidates + [Fire]).decisions == e.decisions + [Decision(ANY_ADDRESS, true)]
  {
    var restarted := Handle(Handle(Handle(e, Start(first)), Start(second)), HandleAborted);
    IdleIgnoresCandidates(restarted, candidates);
    HandleAppend(restarted, candidates, [Fire]);
    assert Ids(restarted.candidates) == [second];
    assert HandleAll(restarted, [Fire]) == Handle(restarted, Fire);
    ElectInRange([second], 1, 0);
  }

  lemma {:induction false} HandleAppend(e: Election, xs: seq<Event>, ys: seq<Event>)
    ensures HandleAll(e, xs + ys) == HandleAll(HandleAll(e, xs), ys)
    decreases |xs|
  {
    if xs == [] {
      assert xs + ys == ys;
    } else {
      assert (xs + ys)[1..] == xs[1..] + ys;
      HandleAppend(Handle(e, xs[0]), xs[1..], ys);
    }
  }
}
