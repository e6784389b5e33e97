/** Elections among the N nodes of one network. Nodes start and restart at any time, on a
    lost gateway, an ElectGateway or an id collision; candidate packets arrive in any order,
    any number of times, also too early or too late; timers fire and cancelled waits
    complete. What is asked of a run is only that each node's last round hears the others. */
module Agreement {
  import opened Hashes
  import opened Endian
  import opened Elections
  import opened Rounds

  /** One event at one node. */
  datatype Step = Step(at: nat, event: Event)

  predicate Plausible(run: seq<Step>, n: nat) {
    forall t :: 0 <= t < |run| ==> run[t].at < n
  }

  /** The nodes after a run that begins with all of them idle. */
  function RunAll(n: nat, run: seq<Step>): (nodes: seq<Election>)
    requires Plausible(run, n)
    ensures |nodes| == n
    decreases |run|
  {
    if run == [] then seq(n, _ => IDLE)
    else
      var nodes, last := RunAll(n, run[..|run| - 1]), run[|run| - 1];
      nodes[last.at := Handle(nodes[last.at], last.event)]
  }

  /** The history of node i in a run. */
  function HistoryOf(run: seq<Step>, i: nat): seq<Event> {
    if run == [] then []
    else
      var last := run[|run| - 1];
      HistoryOf(run[..|run| - 1], i) + if last.at == i then [last.event] else []
  }

  lemma {:induction false} NodeSeesItsHistory(n: nat, run: seq<Step>, i: nat)
    requires Plausible(run, n) && i < n
    ensures RunAll(n, run)[i] == HandleAll(IDLE, HistoryOf(run, i))
    decreases |run|
  {
    if run != [] {
      var earlier, last := run[..|run| - 1], run[|run| - 1];
      NodeSeesItsHistory(n, earlier, i);
      if last.at == i {
        HandleAppend(IDLE, HistoryOf(earlier, i), [last.event]);
        assert [last.event][1..] == [];
      } else {
        assert HistoryOf(earlier, i) + [] == HistoryOf(earlier, i);
      }
    }
  }

  predicate Distinct(s: seq<uint32>) {
    forall i, j :: 0 <= i < j < |s| ==> s[i] != s[j]
  }

  /** The ids of the last rounds do not collide, and the nodes have addresses of their own. */
  predicate Setting(ids: seq<uint32>, addrs: seq<Address>) {
    |ids| == |addrs| >= 1 && Distinct(ids) && Distinct(addrs) && ANY_ADDRESS !in addrs
  }

  /** Node i drew its id at the start of its last round, and what that round counts are the
      current candidates of all other nodes, and no others. */
  predicate HearsAll(ids: seq<uint32>, addrs: seq<Address>, history: seq<Event>, r: Round, i: nat)
    requires |ids| == |addrs| && i < |ids|
  {
    && LastRound(history, r) && Drawn(history[r.begin]) == ids[i]
    && (forall j :: 0 <= j < |ids| && j != i ==> Lists(Window(history, r), Candidate(ids[j], addrs[j])))
    && forall k :: r.begin < k < r.close && history[k].Register? ==>
         exists j :: 0 <= j < |ids| && j != i && history[k].id == ids[j] && history[k].host == addrs[j]
  }

  // ---- Full tables order the same ids

  lemma {:induction false} SameMembersSameOrder(a: seq<uint32>, b: seq<uint32>)
    requires Ascending(a) && Ascending(b)
    requires forall x :: x in a <==> x in b
    ensures a == b
    decreases |a|
  {
    if a == [] {
      assert forall k :: 0 <= k < |b| ==> b[k] in b;
    } else {
      assert a[0] in b && b != [] && b[0] in a;
      assert a[0] == b[0];
      forall x ensures x in a[1..] <==> x in b[1..] {
        assert x in a[1..] <==> x in a && x != a[0];
        assert x in b[1..] <==> x in b && x != b[0];
      }
      SameMembersSameOrder(a[1..], b[1..]);
    }
  }

  /** What the table of a node that hears all holds. */
  ghost predicate FullTable(ids: seq<uint32>, addrs: seq<Address>, i: nat, table: Table)
    requires |ids| == |addrs| && i < |ids|
  {
    && Ordered(table)
    && (forall j :: 0 <= j < |ids| ==> Candidate(ids[j], if j == i then ANY_ADDRESS else addrs[j]) in table)
    && forall c :: c in table ==>
         exists j :: 0 <= j < |ids| && c == Candidate(ids[j], if j == i then ANY_ADDRESS else addrs[j])
  }

  lemma HearsAllFillsTable(ids: seq<uint32>, addrs: seq<Address>, history: seq<Event>, r: Round, i: nat, table: Table)
    requires |ids| == |addrs| && i < |ids| && HearsAll(ids, addrs, history, r, i)
    requires TableFrom(Window(history, r), ids[i], table)
    ensures FullTable(ids, addrs, i, table)
  {
    var seen := Window(history, r);
    forall c | c in table
      ensures exists j :: 0 <= j < |ids| && c == Candidate(ids[j], if j == i then ANY_ADDRESS else addrs[j])
    {
      if c != Candidate(ids[i], ANY_ADDRESS) {
        var k :| 0 <= k < |seen| && seen[k].Register? && seen[k].id == c.id && seen[k].host == c.host;
        assert seen[k] == history[r.begin + 1 + k];
        var j :| 0 <= j < |ids| && j != i && seen[k].id == ids[j] && seen[k].host == addrs[j];
      }
    }
  }

  lemma FullTableIds(ids: seq<uint32>, addrs: seq<Address>, i: nat, table: Table)
    requires |ids| == |addrs| && i < |ids| && FullTable(ids, addrs, i, table)
    ensures Ascending(Ids(table))
    ensures forall x :: x in Ids(table) <==> x in ids
  {
    forall x: uint32 ensures x in Ids(table) <==> x in ids {
      MemberOfIds(table, x);
      if j :| 0 <= j < |ids| && ids[j] == x {
        assert Candidate(ids[j], if j == i then ANY_ADDRESS else addrs[j]) in table;
      }
    }
  }

  /** The ids in order, and the one the election names. */
  function Sorted(ids: seq<uint32>): Table {
    if ids == [] then [] else Insert(Sorted(ids[1..]), Candidate(ids[0], ANY_ADDRESS))
  }

  lemma {:induction false} SortedMeaning(ids: seq<uint32>)
    requires Distinct(ids)
    ensures Ordered(Sorted(ids)) && |Sorted(ids)| == |ids|
    ensures Ascending(Ids(Sorted(ids)))
    ensures forall x :: x in Ids(Sorted(ids)) <==> x in ids
    ensures forall c :: c in Sorted(ids) ==> c.id in ids
    ensures Sum(Ids(Sorted(ids))) == Sum(ids)
  {
    if ids != [] {
      var rest := ids[1..];
      SortedMeaning(rest);
      forall c | c in Sorted(rest) ensures c.id != ids[0] {
        var k :| 0 <= k < |rest| && rest[k] == c.id;
        assert rest[k] == ids[k + 1];
      }
      var c := Candidate(ids[0], ANY_ADDRESS);
      InsertMeaning(Sorted(rest), c);
      InsertSum(Sorted(rest), c);
      forall x: uint32 ensures x in Ids(Sorted(ids)) <==> x in ids {
        MemberOfIds(Sorted(ids), x);
        MemberOfIds(Sorted(rest), x);
        assert x in ids <==> x == ids[0] || x in rest;
      }
    }
  }

  lemma MemberOfIds(table: Table, x: uint32)
    ensures x in Ids(table) <==> exists c :: c in table && c.id == x
  {
    if x in Ids(table) {
      var k :| 0 <= k < |table| && Ids(table)[k] == x;
      assert table[k] in table;
    }
    if c :| c in table && c.id == x {
      var k :| 0 <= k < |table| && table[k] == c;
      assert Ids(table)[k] == x;
    }
  }

  lemma {:induction false} InsertSum(table: Table, c: Candidate)
    ensures Sum(Ids(Insert(table, c))) == c.id + Sum(Ids(table))
    decreases |table|
  {
    var r := Insert(table, c);
    if table != [] && c.id >= table[0].id {
      InsertSum(table[1..], c);
      assert Ids(r)[1..] == Ids(Insert(table[1..], c));
      assert Ids(table)[1..] == Ids(table[1..]);
    } else {
      assert Ids(r)[1..] == Ids(table);
    }
  }

  /** The elected id: the one at the place computed from all ids in order. */
  function WinnerId(ids: seq<uint32>): (id: uint32)
    requires Distinct(ids) && ids != []
    ensures id in ids
  {
    SortedMeaning(ids);
    var order := Ids(Sorted(ids));
    ElectInRange(order, |order|, 0);
    assert order[Elect(order, |order|, 0)] in order;
    order[Elect(order, |order|, 0)]
  }

  lemma FullTableChoice(ids: seq<uint32>, addrs: seq<Address>, i: nat, table: Table, w: nat)
    requires Setting(ids, addrs) && i < |ids| && w < |ids| && ids[w] == WinnerId(ids)
    requires FullTable(ids, addrs, i, table)
    ensures table != []
    ensures Choice(table, ids[i]) == Decision(if i == w then ANY_ADDRESS else addrs[w], i == w)
  {
    FullTableIds(ids, addrs, i, table);
    SortedMeaning(ids);
    SameMembersSameOrder(Ids(table), Ids(Sorted(ids)));
    ElectInRange(Ids(table), |table|, 0);
    var place := Elect(Ids(table), |table|, 0);
    assert Ids(table)[place] == ids[w];
    assert table[place] in table && table[place].id == ids[w];
  }

  /** A node that hears all ends its last round naming the winner. */
  lemma NodeNamesWinner(ids: seq<uint32>, addrs: seq<Address>, history: seq<Event>, r: Round, i: nat, w: nat)
    requires Setting(ids, addrs) && i < |ids| && w < |ids| && ids[w] == WinnerId(ids)
    requires HearsAll(ids, addrs, history, r, i)
    ensures After(history, |history|).decisions
         == After(history, r.begin).decisions + [Decision(if i == w then ANY_ADDRESS else addrs[w], i == w)]
  {
    TableWhenFiring(history, r);
    RoundDecides(history, r, |history|);
    HearsAllFillsTable(ids, addrs, history, r, i, After(history, r.fire).candidates);
    FullTableChoice(ids, addrs, i, After(history, r.fire).candidates, w);
  }

  /** Since `begin` the node was told exactly this decision; if it never started before, it is
      the only one it was ever told. */
  ghost predicate Concludes(e: Election, history: seq<Event>, begin: nat, decision: Decision)
    requires begin <= |history|
  {
    && e.decisions == After(history, begin).decisions + [decision]
    && ((forall k :: 0 <= k < begin ==> !Starts(After(history, k), history[k])) ==> e.decisions == [decision])
  }

  /** Whenever and however often the nodes started, and whatever was delivered: when each
      node's last round counts the current candidates of all others, all nodes end by naming
      the same winner. It is one of them, it alone is told so, and every other node is given
      its address. */
  lemma AllAgree(ids: seq<uint32>, addrs: seq<Address>, run: seq<Step>, rounds: seq<Round>) returns (w: nat)
    requires Setting(ids, addrs) && Plausible(run, |ids|) && |rounds| == |ids|
    requires forall i :: 0 <= i < |ids| ==> HearsAll(ids, addrs, HistoryOf(run, i), rounds[i], i)
    ensures w < |ids| && ids[w] == WinnerId(ids)
    ensures forall i :: 0 <= i < |ids| ==>
              rounds[i].begin <= |HistoryOf(run, i)|
              && Concludes(RunAll(|ids|, run)[i], HistoryOf(run, i), rounds[i].begin,
                           Decision(if i == w then ANY_ADDRESS else addrs[w], i == w))
  {
    w :| 0 <= w < |ids| && ids[w] == WinnerId(ids);
    forall i | 0 <= i < |ids|
      ensures rounds[i].begin <= |HistoryOf(run, i)|
              && Concludes(RunAll(|ids|, run)[i], HistoryOf(run, i), rounds[i].begin,
                           Decision(if i == w then ANY_ADDRESS else addrs[w], i == w))
    {
      var history, r := HistoryOf(run, i), rounds[i];
      NodeSeesItsHistory(|ids|, run, i);
      NodeNamesWinner(ids, addrs, history, r, i, w);
      assert history[..|history|] == history;
      if forall k :: 0 <= k < r.begin ==> !Starts(After(history, k), history[k]) {
        IdleUntilStart(history, r.begin);
      }
    }
  }

  lemma LastMulticastIsDrawn(n: nat, run: seq<Step>, j: nat, r: Round)
    requires Plausible(run, n) && j < n && LastRound(HistoryOf(run, j), r)
    ensures var applied := RunAll(n, run)[j].applied;
            applied != [] && applied[|applied| - 1] == Drawn(HistoryOf(run, j)[r.begin])
  {
    var history := HistoryOf(run, j);
    NodeSeesItsHistory(n, run, j);
    LastApplied(history, r, |history|);
    assert history[..|history|] == history;
  }

  lemma CountsCandidate(ids: seq<uint32>, addrs: seq<Address>, history: seq<Event>, r: Round, i: nat, j: nat)
    requires |ids| == |addrs| && i < |ids| && j < |ids| && i != j && HearsAll(ids, addrs, history, r, i)
    ensures Lists(Window(history, r), Candidate(ids[j], addrs[j]))
  {
  }

  /** The id that a node last multicast is the one of its last round, so what a node that
      hears all has counted are exactly the last candidates that the others sent. */
  lemma CountedAreSent(ids: seq<uint32>, addrs: seq<Address>, run: seq<Step>, rounds: seq<Round>, i: nat, j: nat)
    requires |ids| == |addrs| && Plausible(run, |ids|) && |rounds| == |ids| && i < |ids| && j < |ids| && i != j
    requires HearsAll(ids, addrs, HistoryOf(run, i), rounds[i], i)
    requires LastRound(HistoryOf(run, j), rounds[j]) && Drawn(HistoryOf(run, j)[rounds[j].begin]) == ids[j]
    ensures var applied := RunAll(|ids|, run)[j].applied;
            && applied != [] && applied[|applied| - 1] == ids[j]
            && Lists(Window(HistoryOf(run, i), rounds[i]), Candidate(applied[|applied| - 1], addrs[j]))
  {
    LastMulticastIsDrawn(|ids|, run, j, rounds[j]);
    CountsCandidate(ids, addrs, HistoryOf(run, i), rounds[i], i, j);
  }

  // ---- The documented rule

  /** The winner's place among the ids in order is the sum of the ids modulo their number. */
  predicate NamesDocumentedWinner(ids: seq<uint32>)
    requires Distinct(ids) && ids != []
  {
    SortedMeaning(ids);
    WinnerId(ids) == Ids(Sorted(ids))[Sum(ids) % |ids|]
  }

  lemma DistinctPlaces(order: seq<uint32>, a: nat, b: nat)
    requires Ascending(order) && a < |order| && b < |order|
    ensures order[a] == order[b] <==> a == b
  {
    assert a < b ==> order[a] < order[b];
    assert b < a ==> order[b] < order[a];
  }

  lemma DocumentedIffFollows(ids: seq<uint32>)
    requires Distinct(ids) && ids != []
    ensures |Sorted(ids)| == |ids|
    ensures NamesDocumentedWinner(ids) <==> FollowsRule(Ids(Sorted(ids)))
  {
    SortedMeaning(ids);
    var order := Ids(Sorted(ids));
    ElectInRange(order, |order|, 0);
    DistinctPlaces(order, Elect(order, |order|, 0), Sum(ids) % |ids|);
  }

  /** The documented winner, when every id is at most 2^32 minus their number, or that number
      divides 2^32. */
  lemma WinnerFollowsDocumentedRule(ids: seq<uint32>)
    requires Distinct(ids) && ids != []
    requires (forall i :: 0 <= i < |ids| ==> ids[i] <= WORD32 - |ids|) || WORD32 % |ids| == 0
    ensures var order := Ids(Sorted(ids));
            && Ascending(order) && (forall x :: x in order <==> x in ids)
            && |order| == |ids| && WinnerId(ids) == order[Sum(ids) % |ids|]
  {
    SortedMeaning(ids);
    var order := Ids(Sorted(ids));
    DocumentedIffFollows(ids);
    if WORD32 % |ids| == 0 {
      DividingNumberFollowsRule(order);
    } else {
      forall k | 0 <= k < |order| ensures order[k] <= WORD32 - |order| {
        assert order[k] in order;
      }
      DocumentedPlace(order);
    }
  }

  lemma OrderedIdsStay(ids: seq<uint32>)
    requires Ascending(ids)
    ensures Distinct(ids) && Ids(Sorted(ids)) == ids
  {
    assert Distinct(ids);
    SortedMeaning(ids);
    SameMembersSameOrder(Ids(Sorted(ids)), ids);
  }

  /** An election of n nodes names the documented winner whatever their ids, iff n divides
      2^32. */
  lemma DocumentedWinnerIffDividing(n: nat)
    requires 1 <= n <= WORD32 / 2
    ensures (forall ids: seq<uint32> | |ids| == n && Distinct(ids) :: NamesDocumentedWinner(ids))
       <==> WORD32 % n == 0
  {
    if WORD32 % n == 0 {
      forall ids: seq<uint32> | |ids| == n && Distinct(ids) ensures NamesDocumentedWinner(ids) {
        WinnerFollowsDocumentedRule(ids);
      }
    } else {
      var ids := Counterexample(n);
      CounterexampleWraps(n);
      OrderedIdsStay(ids);
      DocumentedIffFollows(ids);
      assert !NamesDocumentedWinner(ids);
    }
  }
}
