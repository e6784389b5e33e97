/** The reply to a file name search (MulticastHandler.cpp): entries of hash, size, name and
    a NUL, printed up to the packet's capacity and parsed by a loop. */
module SearchReplies {
  import opened Hashes
  import opened Endian
  import opened Elections
  import opened Frames
  import opened Gateways

  const FLOAT_SIZE: nat := 4
  const FIXED_SIZE: nat := 24 // hash and size

  /** The four bytes of the size are a float in host order, copied as they are. */
  type FloatBytes = s: seq<byte> | |s| == FLOAT_SIZE witness [0, 0, 0, 0]

  datatype Match = Match(hash: Hash, size: FloatBytes, name: seq<byte>)

  predicate NulFree(m: Match) {
    0 !in m.name
  }

  function EntrySize(m: Match): nat {
    FIXED_SIZE + |m.name| + 1
  }

  function Print(m: Match): (s: seq<byte>)
    ensures |s| == EntrySize(m)
  {
    m.hash + m.size + m.name + [0]
  }

  function PrintAll(ms: seq<Match>): seq<byte> {
    if ms == [] then [] else Print(ms[0]) + PrintAll(ms[1..])
  }

  /** The matches that on_searchFileName emits: a prefix, up to the first one that would
      exceed BODY_MAXSIZE. */
  function Emitted(ms: seq<Match>, length: nat): seq<Match> {
    if ms == [] || length + |Print(ms[0])| > BODY_MAXSIZE then []
    else [ms[0]] + Emitted(ms[1..], length + |Print(ms[0])|)
  }

  /** The longest prefix that fits. */
  lemma {:induction false} EmittedIsLongestFit(ms: seq<Match>, length: nat)
    requires length <= BODY_MAXSIZE
    ensures var prefix := Emitted(ms, length);
            && prefix <= ms && length + |PrintAll(prefix)| <= BODY_MAXSIZE
            && (prefix < ms ==> length + |PrintAll(prefix)| + |Print(ms[|prefix|])| > BODY_MAXSIZE)
    decreases |ms|
  {
    if ms != [] && length + |Print(ms[0])| <= BODY_MAXSIZE {
      EmittedIsLongestFit(ms[1..], length + |Print(ms[0])|);
      var rest := Emitted(ms[1..], length + |Print(ms[0])|);
      assert ([ms[0]] + rest)[1..] == rest && ms == [ms[0]] + ms[1..];
    }
  }

  /** Before match i: the answer so far is completed by what of the rest still fits. */
  ghost predicate Building(ms: seq<Match>, i: nat, answer: seq<byte>)
    requires i <= |ms|
  {
    answer + PrintAll(Emitted(ms[i..], |answer|)) == PrintAll(Emitted(ms, 0))
  }

  lemma EmittedFrom(ms: seq<Match>, i: nat, length: nat)
    requires i < |ms|
    ensures Emitted(ms[i..], length) ==
            if length + |Print(ms[i])| > BODY_MAXSIZE then []
            else [ms[i]] + Emitted(ms[i + 1..], length + |Print(ms[i])|)
  {
    assert ms[i..][1..] == ms[i + 1..];
  }

  lemma PrintAllHead(m: Match, tail: seq<Match>)
    ensures PrintAll([m] + tail) == Print(m) + PrintAll(tail)
  {
    assert ([m] + tail)[1..] == tail;
  }

  lemma Appended(a: seq<byte>, b: seq<byte>, c: seq<byte>)
    ensures a + (b + c) == (a + b) + c
    ensures a + [] == a
  {
  }

  lemma BuildTurn(ms: seq<Match>, i: nat, answer: seq<byte>)
    requires i < |ms| && Building(ms, i, answer)
    ensures if |answer| + |Print(ms[i])| > BODY_MAXSIZE then answer == PrintAll(Emitted(ms, 0))
            else Building(ms, i + 1, answer + Print(ms[i]))
  {
    var tail := Emitted(ms[i + 1..], |answer| + |Print(ms[i])|);
    EmittedFrom(ms, i, |answer|);
    PrintAllHead(ms[i], tail);
    Appended(answer, Print(ms[i]), PrintAll(tail));
  }

  method BuildAnswer(ms: seq<Match>) returns (answer: seq<byte>)
    ensures answer == PrintAll(Emitted(ms, 0))
    ensures |answer| <= BODY_MAXSIZE
  {
    answer := [];
    var length: nat := 0;
    assert Building(ms, 0, []) by {
      assert ms[0..] == ms;
    }
    for i := 0 to |ms|
      invariant length == |answer| <= BODY_MAXSIZE
      invariant Building(ms, i, answer)
    {
      var entry := Print(ms[i]);
      BuildTurn(ms, i, answer);
      length := length + |entry|;
      if length > BODY_MAXSIZE {
        return;
      }
      answer := answer + entry;
    }
    assert ms[|ms|..] == [];
  }

  // ---- The parser

  /** Bytes from `from` up to the next NUL or the end. */
  function NameLength(args: seq<byte>, from: nat): (n: nat)
    ensures from <= |args| ==> from + n <= |args|
    ensures from > |args| ==> n == 0
    decreases |args| - from
  {
    if from >= |args| || args[from] == 0 then 0 else 1 + NameLength(args, from + 1)
  }

  lemma {:induction false} NameLengthMeaning(args: seq<byte>, from: nat)
    ensures var n := NameLength(args, from);
            && (forall i :: from <= i < from + n ==> i < |args| && args[i] != 0)
            && (from + n < |args| ==> args[from + n] == 0)
    decreases |args| - from
  {
    if from < |args| && args[from] != 0 {
      NameLengthMeaning(args, from + 1);
    }
  }

  /** The entry at `index`, if a whole one is left. */
  function EntryAt(args: seq<byte>, index: nat): Option<Match> {
    var n := NameLength(args, index + FIXED_SIZE);
    if index + n + FIXED_SIZE >= |args| then None
    else Some(Match(args[index..index + HASH_SIZE], args[index + HASH_SIZE..index + FIXED_SIZE],
                    args[index + FIXED_SIZE..index + FIXED_SIZE + n]))
  }

  /** The entries the loop reads from `index` on. */
  function Entries(args: seq<byte>, index: nat): seq<Match>
    decreases |args| - index
  {
    match EntryAt(args, index)
    case None => []
    case Some(m) => [m] + Entries(args, index + EntrySize(m))
  }

  type Results = map<seq<byte>, (FloatBytes, Hash)>

  /** The results as the loop fills them: the last entry of a name wins. */
  function Collected(ms: seq<Match>, results: Results): Results {
    if ms == [] then results
    else Collected(ms[1..], results[ms[0].name := (ms[0].size, ms[0].hash)])
  }

  /** Entry k is the last one of its name. */
  predicate LastOfName(ms: seq<Match>, k: nat)
    requires k < |ms|
  {
    forall j :: k < j < |ms| ==> ms[j].name != ms[k].name
  }

  /** These are the results of the entries: the names they carry, and for each the size and
      the hash of its last entry. */
  ghost predicate ResultsOf(ms: seq<Match>, results: Results) {
    && (forall name :: name in results <==> exists k :: 0 <= k < |ms| && ms[k].name == name)
    && forall k :: 0 <= k < |ms| && LastOfName(ms, k) ==>
         ms[k].name in results && results[ms[k].name] == (ms[k].size, ms[k].hash)
  }

  ghost predicate Carries(ms: seq<Match>, name: seq<byte>) {
    exists k :: 0 <= k < |ms| && ms[k].name == name
  }

  lemma CarriesHead(ms: seq<Match>, name: seq<byte>)
    requires ms != []
    ensures Carries(ms, name) <==> ms[0].name == name || Carries(ms[1..], name)
  {
    var rest := ms[1..];
    if k :| 0 <= k < |ms| && ms[k].name == name {
      assert k == 0 || rest[k - 1].name == name;
    }
    if k :| 0 <= k < |rest| && rest[k].name == name {
      assert ms[k + 1].name == name;
    }
  }

  lemma {:induction false} CollectedNames(ms: seq<Match>, results: Results, name: seq<byte>)
    ensures name in Collected(ms, results) <==> name in results || Carries(ms, name)
    ensures name in results && !Carries(ms, name) ==> Collected(ms, results)[name] == results[name]
    decreases |ms|
  {
    if ms != [] {
      CarriesHead(ms, name);
      CollectedNames(ms[1..], results[ms[0].name := (ms[0].size, ms[0].hash)], name);
    }
  }

  /** The last entry of a name wins. */
  lemma {:induction false} CollectedLast(ms: seq<Match>, results: Results, k: nat)
    requires k < |ms| && LastOfName(ms, k)
    ensures ms[k].name in Collected(ms, results)
    ensures Collected(ms, results)[ms[k].name] == (ms[k].size, ms[k].hash)
    decreases |ms|
  {
    var rest, results' := ms[1..], results[ms[0].name := (ms[0].size, ms[0].hash)];
    assert forall j :: 0 <= j < |rest| ==> rest[j] == ms[j + 1];
    if k == 0 {
      assert !Carries(rest, ms[0].name);
      CollectedNames(rest, results', ms[0].name);
    } else {
      CollectedLast(rest, results', k - 1);
    }
  }

  lemma CollectedIsResults(ms: seq<Match>)
    ensures ResultsOf(ms, Collected(ms, map[]))
  {
    forall name ensures name in Collected(ms, map[]) <==> Carries(ms, name) {
      CollectedNames(ms, map[], name);
    }
    forall k | 0 <= k < |ms| && LastOfName(ms, k)
      ensures ms[k].name in Collected(ms, map[]) && Collected(ms, map[])[ms[k].name] == (ms[k].size, ms[k].hash)
    {
      CollectedLast(ms, map[], k);
    }
  }

  /** The inner loop: count the bytes of the name. */
  method ScanName(args: seq<byte>, from: nat) returns (stringLength: nat)
    ensures stringLength == NameLength(args, from)
  {
    stringLength := 0;
    var i := from;
    while i < |args| && args[i] != 0
      invariant i == from + stringLength
      invariant stringLength + NameLength(args, i) == NameLength(args, from)
    {
      stringLength := stringLength + 1;
      i := i + 1;
    }
  }

  method ParseReply(args: seq<byte>) returns (results: Results)
    ensures results == Collected(Entries(args, 0), map[])
    ensures ResultsOf(Entries(args, 0), results)
  {
    results := map[];
    var index: nat := 0;
    while index < |args|
      invariant Collected(Entries(args, index), results) == Collected(Entries(args, 0), map[])
      decreases |args| - index
    {
      var stringLength := ScanName(args, index + FIXED_SIZE);
      if index + stringLength + FIXED_SIZE >= |args| {
        break;
      }
      var hash: Hash := args[index..index + HASH_SIZE];
      var filesize: FloatBytes := args[index + HASH_SIZE..index + FIXED_SIZE];
      var filename := args[index + FIXED_SIZE..index + FIXED_SIZE + stringLength];
      assert EntryAt(args, index) == Some(Match(hash, filesize, filename));
      results := results[filename := (filesize, hash)];
      index := index + FIXED_SIZE + stringLength + 1;
    }
    CollectedIsResults(Entries(args, 0));
  }

  // ---- Printer and parser

  lemma {:induction false} NameEndsAtNul(args: seq<byte>, from: nat, n: nat)
    requires from + n < |args| && args[from + n] == 0
    requires forall i :: from <= i < from + n ==> args[i] != 0
    ensures NameLength(args, from) == n
    decreases n
  {
    if n > 0 {
      NameEndsAtNul(args, from + 1, n - 1);
    }
  }

  lemma NameBytes(args: seq<byte>, at: nat, name: seq<byte>)
    requires at + |name| <= |args| && args[at..at + |name|] == name && 0 !in name
    ensures forall i :: at <= i < at + |name| ==> args[i] != 0
  {
    forall i | at <= i < at + |name| ensures args[i] != 0 {
      assert args[i] == args[at..at + |name|][i - at] == name[i - at];
      assert name[i - at] in name;
    }
  }

  lemma PartsOfPrint(m: Match)
    ensures var p, n := Print(m), |m.name|;
            && |p| == FIXED_SIZE + n + 1
            && p[0..HASH_SIZE] == m.hash && p[HASH_SIZE..FIXED_SIZE] == m.size
            && p[FIXED_SIZE..FIXED_SIZE + n] == m.name && p[FIXED_SIZE + n] == 0
  {
    var p := Print(m);
    assert p[0..] == m.hash + (m.size + (m.name + [0]));
    HeadOfSlice(p, 0, m.hash, m.size + (m.name + [0]));
    HeadOfSlice(p, HASH_SIZE, m.size, m.name + [0]);
    HeadOfSlice(p, FIXED_SIZE, m.name, [0]);
    assert p[|p| - 1] == 0;
  }

  /** Where the parts of a printed entry are. */
  lemma EntryLayout(m: Match)
    ensures var p := Print(m);
            && |p| == |m.name| + 25
            && p[..20] == m.hash && p[20..24] == m.size && p[24..|p| - 1] == m.name && p[|p| - 1] == 0
  {
    PartsOfPrint(m);
  }

  lemma SubSlice(s: seq<byte>, at: nat, length: nat, a: nat, b: nat)
    requires at + length <= |s| && a <= b <= length
    ensures s[at..at + length][a..b] == s[at + a..at + b]
  {
    var l, r := s[at..at + length][a..b], s[at + a..at + b];
    assert |l| == |r| && forall k :: 0 <= k < |l| ==> l[k] == r[k];
  }

  lemma EntryReadsBack(args: seq<byte>, index: nat, m: Match)
    requires NulFree(m) && index + |Print(m)| <= |args| && args[index..index + |Print(m)|] == Print(m)
    ensures EntryAt(args, index) == Some(m)
  {
    var length, n := |Print(m)|, |m.name|;
    PartsOfPrint(m);
    SubSlice(args, index, length, 0, HASH_SIZE);
    SubSlice(args, index, length, HASH_SIZE, FIXED_SIZE);
    SubSlice(args, index, length, FIXED_SIZE, FIXED_SIZE + n);
    assert args[index + FIXED_SIZE + n] == args[index..index + length][FIXED_SIZE + n];
    NameBytes(args, index + FIXED_SIZE, m.name);
    NameEndsAtNul(args, index + FIXED_SIZE, n);
  }

  lemma NoEntryAtEnd(args: seq<byte>)
    ensures EntryAt(args, |args|) == None
  {
    assert NameLength(args, |args| + FIXED_SIZE) == 0;
  }

  /** From `index` on the entries follow one another up to the end. */
  predicate Shows(args: seq<byte>, index: nat, ms: seq<Match>)
    decreases |ms|
  {
    if ms == [] then EntryAt(args, index) == None
    else EntryAt(args, index) == Some(ms[0]) && Shows(args, index + EntrySize(ms[0]), ms[1..])
  }

  lemma EntriesHead(args: seq<byte>, index: nat, m: Match)
    requires EntryAt(args, index) == Some(m)
    ensures Entries(args, index) == [m] + Entries(args, index + EntrySize(m))
  {
  }

  lemma {:induction false} ShownEntries(args: seq<byte>, index: nat, ms: seq<Match>)
    requires Shows(args, index, ms)
    ensures Entries(args, index) == ms
    decreases |ms|
  {
    if ms != [] {
      EntriesHead(args, index, ms[0]);
      ShownEntries(args, index + EntrySize(ms[0]), ms[1..]);
      assert ms == [ms[0]] + ms[1..];
    }
  }

  lemma {:induction false} PrintShows(args: seq<byte>, index: nat, ms: seq<Match>)
    requires forall i :: 0 <= i < |ms| ==> NulFree(ms[i])
    requires index <= |args| && args[index..] == PrintAll(ms)
    ensures Shows(args, index, ms)
    decreases |ms|
  {
    if ms == [] {
      NoEntryAtEnd(args);
    } else {
      HeadOfSlice(args, index, Print(ms[0]), PrintAll(ms[1..]));
      EntryReadsBack(args, index, ms[0]);
      PrintShows(args, index + EntrySize(ms[0]), ms[1..]);
    }
  }

  /** Reading what was printed gives back the same entries, when no name holds a NUL. */
  lemma PrintedEntriesReadBack(ms: seq<Match>)
    requires forall i :: 0 <= i < |ms| ==> NulFree(ms[i])
    ensures Entries(PrintAll(ms), 0) == ms
  {
    var args := PrintAll(ms);
    assert args[0..] == args;
    PrintShows(args, 0, ms);
    ShownEntries(args, 0, ms);
  }

  lemma HeadOfSlice(s: seq<byte>, index: nat, head: seq<byte>, tail: seq<byte>)
    requires index <= |s| && s[index..] == head + tail
    ensures index + |head| <= |s| && s[index..index + |head|] == head && s[index + |head|..] == tail
  {
    assert s[index..index + |head|] == s[index..][..|head|];
    assert s[index + |head|..] == s[index..][|head|..];
  }

  lemma EntryPrintsBack(args: seq<byte>, index: nat)
    ensures match EntryAt(args, index)
            case None => forall j :: index + FIXED_SIZE <= j < |args| ==> args[j] != 0
            case Some(m) => NulFree(m) && index + |Print(m)| <= |args|
                            && Print(m) == args[index..index + |Print(m)|]
  {
    var n := NameLength(args, index + FIXED_SIZE);
    NameLengthMeaning(args, index + FIXED_SIZE);
    if index + n + FIXED_SIZE < |args| {
      var m := EntryAt(args, index).value;
      var at := index + FIXED_SIZE;
      assert m.name == args[at..at + n] && [0] == args[at + n..at + n + 1];
      JoinSlices(args, index, index + HASH_SIZE, at);
      JoinSlices(args, index, at, at + n);
      JoinSlices(args, index, at + n, at + n + 1);
      forall i | 0 <= i < |m.name| ensures m.name[i] != 0 {
        assert m.name[i] == args[index + FIXED_SIZE + i];
      }
    }
  }

  /** These entries are NUL-free and printing them gives the bytes from `index` on, up to
      where no complete entry is left. */
  predicate PrintsBack(args: seq<byte>, index: nat, ms: seq<Match>) {
    && (forall i :: 0 <= i < |ms| ==> NulFree(ms[i]))
    && index + |PrintAll(ms)| <= |args|
    && PrintAll(ms) == args[index..index + |PrintAll(ms)|]
    && forall j :: index + |PrintAll(ms)| + FIXED_SIZE <= j < |args| ==> args[j] != 0
  }

  lemma PrintsBackOneMore(args: seq<byte>, index: nat, m: Match, rest: seq<Match>)
    requires NulFree(m) && index + |Print(m)| <= |args| && Print(m) == args[index..index + |Print(m)|]
    requires PrintsBack(args, index + |Print(m)|, rest)
    ensures PrintsBack(args, index, [m] + rest)
  {
    var next := index + |Print(m)|;
    assert ([m] + rest)[1..] == rest;
    assert PrintAll([m] + rest) == Print(m) + PrintAll(rest);
    JoinSlices(args, index, next, next + |PrintAll(rest)|);
  }

  /** On arbitrary bytes: the entries read are NUL-free, printing them gives back the bytes
      they were read from, and what is left holds no further complete entry. */
  lemma {:induction false} ParsedEntriesPrintBack(args: seq<byte>, index: nat)
    requires index <= |args|
    ensures PrintsBack(args, index, Entries(args, index))
    decreases |args| - index
  {
    EntryPrintsBack(args, index);
    var entry := EntryAt(args, index);
    if entry.Some? {
      var next := index + EntrySize(entry.value);
      ParsedEntriesPrintBack(args, next);
      PrintsBackOneMore(args, index, entry.value, Entries(args, next));
    }
  }

  /** The results that the handler of the receiving node is given for a datagram, if it is
      dispatched as a reply at all. */
  function Answered(frame: seq<byte>, endpoint: Address): Option<Results> {
    match Parse(Delivered(frame), endpoint)
    case None => None
    case Some(m) =>
      if m.command == SEARCH_FILE_NAME_REPLY && Valid(m.command, |m.args|)
      then Some(Collected(Entries(m.args, 0), map[])) else None
  }

  lemma NothingEmitted(ms: seq<Match>)
    ensures PrintAll(ms) == [] <==> ms == []
  {
  }

  /** A search is answered with exactly the emitted matches, the last of a name winning. No
      answer is handled when nothing was emitted, as dispatch ignores an empty reply, and
      when the reply has 251 bytes, the most that the printer allows and one too many for a
      packet. */
  lemma ReplyRoundTrip(ms: seq<Match>, sender: Address, endpoint: Address)
    requires forall i :: 0 <= i < |ms| ==> NulFree(ms[i])
    ensures var emitted := Emitted(ms, 0);
            var answer := PrintAll(emitted);
            && |answer| < 256
            && Answered(Frame(Some(sender), SEARCH_FILE_NAME_REPLY, answer), endpoint) ==
               if emitted == [] || |answer| == BODY_MAXSIZE then None else Some(Collected(emitted, map[]))
    ensures var emitted := Emitted(ms, 0);
            var results := Answered(Frame(Some(sender), SEARCH_FILE_NAME_REPLY, PrintAll(emitted)), endpoint);
            results.Some? ==> ResultsOf(emitted, results.value)
  {
    var emitted := Emitted(ms, 0);
    var answer := PrintAll(emitted);
    EmittedIsLongestFit(ms, 0);
    assert forall i :: 0 <= i < |emitted| ==> emitted[i] == ms[i];
    NothingEmitted(emitted);
    PrintedEntriesReadBack(emitted);
    CollectedIsResults(emitted);
    FrameRoundTrip(Some(sender), SEARCH_FILE_NAME_REPLY, answer, endpoint);
  }

  function LetterName(n: nat): (name: seq<byte>)
    ensures |name| == n && 0 !in name
  {
    seq(n, _ => 97)
  }

  /** One match with a name of 226 bytes is printed and lost. */
  lemma LongestReplyIsLost(sender: Address, endpoint: Address)
    ensures var ms := [Match(ZERO_HASH, [0, 0, 0, 0], LetterName(226))];
            && Emitted(ms, 0) == ms && |PrintAll(ms)| == BODY_MAXSIZE
            && Parse(Delivered(Frame(Some(sender), SEARCH_FILE_NAME_REPLY, PrintAll(ms))), endpoint) == None
  {
    var ms := [Match(ZERO_HASH, [0, 0, 0, 0], LetterName(226))];
    assert PrintAll(ms[1..]) == [];
    assert |PrintAll(ms)| == 251;
    FrameRoundTrip(Some(sender), SEARCH_FILE_NAME_REPLY, PrintAll(ms), endpoint);
  }
}
