/** One TCP connection (Peer.cpp) driven by its environment: operations complete or fail,
    with whatever bytes the remote chose to send. */
module Peers {
  import opened Hashes
  import opened Endian
  import opened Blocks
  import opened FileFormat
  import opened CompleteFiles
  import opened Downloads
  import opened Sending

  const READ_BUFFER: nat := 500_000
  const COMMAND_DOWNLOAD: byte := 68 // 'D'

  datatype ConnState = NewPeer | Idle | Uploading | Downloading | Closed

  /** An asynchronous operation that has been started and has not completed. */
  datatype Operation =
    | ReadExactly(bytes: nat)
    | ReadSome
    | SendRequest
    | SendHeader(start: nat, end: nat)
    | SendChunk(start: nat, end: nat, failed: bool)

  /** `SizeOrState` is a failed assertion about a read's size or the connection's state;
      `Lookup` one about the database or the block index asked for. */
  datatype Fault = NoFault | SizeOrState | Lookup

  /** `sent`: every byte handed to the socket so far. `closings`: how often the close handler
      was posted. */
  datatype Conn = Conn(state: ConnState, parsedArgs: bool, block: Receiver, pending: seq<Operation>,
                       content: seq<byte>, sent: seq<byte>, closings: nat, fault: Fault)

  const NEW_CONN := Conn(NewPeer, false, FRESH, [], [], [], 0, NoFault)

  /** The content of the complete file that find returns for a root hash. */
  type Database = Hash -> Option<seq<byte>>

  datatype Event =
    | Init
    | Download(key: Hash, index: uint32)
    | Completed(bytes: seq<byte>)
    | Failed(aborted: bool)

  function ReadBytes(c: Conn, bytes: nat): Conn {
    c.(pending := c.pending + [if bytes == 0 then ReadSome
                               else ReadExactly(if bytes <= READ_BUFFER then bytes else READ_BUFFER)])
  }

  function Disconnect(c: Conn): Conn {
    if c.state != Closed then c.(state := Closed, closings := c.closings + 1) else c
  }

  function OnDownload(sha: Digest, c: Conn, buffer: seq<byte>): Conn {
    if c.state != Downloading || !Sound(c.block) || !SizeAsserted(c.block, |buffer|) then c.(fault := SizeOrState)
    else
      var a := Step(sha, c.block, buffer);
      if a.more then ReadBytes(c.(block := a.next), a.toRead)
      else ReadBytes(c.(block := a.next, state := Idle), 1)
  }

  /** The header for a block of a complete file. */
  function BlockHeader(sha: Digest, content: seq<byte>, block: uint32): seq<byte>
    requires StartIndex(block) < |content|
  {
    Header(OwnList(sha, LeafHashes(sha, content), block), EndIndex(content, block) - StartIndex(block))
  }

  function SendBlock(sha: Digest, db: Database, c: Conn, key: Hash, block: uint32): Conn {
    if c.state != Uploading then c.(fault := SizeOrState)
    else
      var found := db(key);
      if found.None? || StartIndex(block) >= |found.value| then c.(fault := Lookup)
      else c.(content := found.value,
              sent := c.sent + BlockHeader(sha, found.value, block),
              pending := c.pending + [SendHeader(StartIndex(block), EndIndex(found.value, block))])
  }

  /** What a peer asks for: the command, the root hash, the block. */
  function Request(key: Hash, index: uint32): seq<byte> {
    [COMMAND_DOWNLOAD] + key + BigEndian32(index)
  }

  /** Where the parts of a request are. */
  lemma RequestLayout(key: Hash, index: uint32)
    ensures var s := Request(key, index);
            |s| == 25 && s[0] == 68 && s[1..21] == key && s[21..] == BigEndian32(index)
  {
  }

  function OnRead(sha: Digest, db: Database, c: Conn, buffer: seq<byte>): Conn {
    match c.state
    case Idle =>
      if |buffer| != 1 then c.(fault := SizeOrState)
      else if buffer[0] == COMMAND_DOWNLOAD then
        ReadBytes(c.(state := Uploading, parsedArgs := false), HASH_SIZE + 4)
      else Disconnect(c)
    case Uploading =>
      if c.parsedArgs then c
      else if |buffer| != HASH_SIZE + 4 then c.(fault := SizeOrState)
      else SendBlock(sha, db, c.(parsedArgs := true), buffer[..HASH_SIZE], FromBigEndian32(buffer[HASH_SIZE..]))
    case Downloading => OnDownload(sha, c, buffer)
    case _ => c
  }

  function OnWrite(c: Conn, start: nat, end: nat, failed: bool): Conn {
    if c.state != Uploading then c
    else if start > |c.content| then c.(fault := SizeOrState)
    else match NextChunk(c.content, start, end, failed)
      case Some(chunk) =>
        c.(sent := c.sent + chunk,
           pending := c.pending + [SendChunk(start + |chunk|, end, start + CHUNK_SIZE > |c.content|)])
      case None => ReadBytes(c.(state := Idle), 1)
  }

  /** Init and Download are how UnicastHandler uses a peer: once, on a new one. A completed
      exact read delivers as many bytes as were asked for, a read-some at least one. */
  predicate Possible(c: Conn, e: Event) {
    && c.fault == NoFault
    && match e
       case Init => c.state == NewPeer && c.pending == []
       case Download(_, _) => c.state == NewPeer && c.pending == []
       case Failed(_) => c.pending != []
       case Completed(bytes) =>
         && c.pending != []
         && match c.pending[0]
            case ReadExactly(n) => |bytes| == n
            case ReadSome => 1 <= |bytes| <= READ_BUFFER
            case _ => bytes == []
  }

  function React(sha: Digest, db: Database, c: Conn, e: Event): Conn
    requires Possible(c, e)
  {
    match e
    case Init => ReadBytes(c.(state := Idle), 1)
    case Download(key, index) =>
      c.(state := Downloading, sent := c.sent + Request(key, index), pending := c.pending + [SendRequest])
    case Completed(bytes) =>
      var op, c' := c.pending[0], c.(pending := c.pending[1..]);
      (match op
       case ReadExactly(_) => OnRead(sha, db, c', bytes)
       case ReadSome => OnRead(sha, db, c', bytes)
       case SendRequest => OnRead(sha, db, c', [])
       case SendHeader(start, end) => OnWrite(c', start, end, false)
       case SendChunk(start, end, failed) => OnWrite(c', start, end, failed))
    case Failed(aborted) =>
      var op, c' := c.pending[0], c.(pending := c.pending[1..]);
      (match op
       case SendRequest => OnRead(sha, db, c', [])
       case SendHeader(start, end) => OnWrite(c', start, end, false)
       case _ => if aborted then c' else Disconnect(c'))
  }

  predicate PossibleRun(sha: Digest, db: Database, c: Conn, events: seq<Event>)
    decreases |events|
  {
    events == [] ||
    (Possible(c, events[0]) && PossibleRun(sha, db, React(sha, db, c, events[0]), events[1..]))
  }

  function ConnAfter(sha: Digest, db: Database, c: Conn, events: seq<Event>): Conn
    requires PossibleRun(sha, db, c, events)
    decreases |events|
  {
    if events == [] then c else ConnAfter(sha, db, React(sha, db, c, events[0]), events[1..])
  }

  /** The operation in flight suits the connection's state and the block's. */
  predicate Suits(c: Conn, op: Operation) {
    match op
    case ReadExactly(n) =>
      (match c.state
       case Idle => n == 1
       case Uploading => !c.parsedArgs && n == HASH_SIZE + 4
       case Downloading => c.block.phase != NewlyCreated && c.block.phase != Data && SizeAsserted(c.block, n)
       case _ => false)
    case ReadSome => c.state == Downloading && c.block.phase == Data
    case SendRequest => c.state == Downloading && c.block.phase == NewlyCreated
    case SendHeader(start, end) => c.state == Uploading && c.parsedArgs && start <= |c.content|
    case SendChunk(start, end, _) => c.state == Uploading && c.parsedArgs && start <= |c.content|
  }

  predicate Consistent(c: Conn) {
    && Sound(c.block)
    && (c.state == Downloading || c.state == Closed || c.block.phase == NewlyCreated)
    && c.fault != SizeOrState
    && c.closings == (if c.state == Closed then 1 else 0)
    && |c.pending| <= 1
    && (c.state == NewPeer || c.state == Closed || c.fault == Lookup ==> c.pending == [])
    && (c.pending != [] ==> Suits(c, c.pending[0]))
  }

  /** Waiting for exactly one operation, or at rest for one of these reasons. */
  predicate Live(c: Conn, aborted: bool) {
    |c.pending| == 1 || c.state == NewPeer || c.state == Closed || c.fault == Lookup || aborted
  }

  lemma OnReadKeepsConsistent(sha: Digest, db: Database, c: Conn, op: Operation, buffer: seq<byte>)
    requires Consistent(c) && c.pending == [] && c.fault == NoFault && Suits(c, op)
    requires match op
             case ReadExactly(n) => |buffer| == n
             case ReadSome => true
             case SendRequest => buffer == []
             case _ => false
    ensures Consistent(OnRead(sha, db, c, buffer)) && Live(OnRead(sha, db, c, buffer), false)
  {
  }

  lemma OnWriteKeepsConsistent(c: Conn, op: Operation)
    requires Consistent(c) && c.pending == [] && c.fault == NoFault && Suits(c, op)
    requires op.SendHeader? || op.SendChunk?
    ensures var failed := op.SendChunk? && op.failed;
            Consistent(OnWrite(c, op.start, op.end, failed)) && Live(OnWrite(c, op.start, op.end, failed), false)
  {
  }

  lemma ReactKeepsConsistent(sha: Digest, db: Database, c: Conn, e: Event)
    requires Consistent(c) && Possible(c, e)
    ensures Consistent(React(sha, db, c, e))
    ensures Live(React(sha, db, c, e), e == Failed(true))
  {
    if e.Completed? || e.Failed? {
      var op, c' := c.pending[0], c.(pending := []);
      assert c.pending[1..] == [];
      if op.SendRequest? {
        OnReadKeepsConsistent(sha, db, c', op, []);
      } else if op.SendHeader? || (op.SendChunk? && e.Completed?) {
        OnWriteKeepsConsistent(c', op);
      } else if e.Completed? {
        OnReadKeepsConsistent(sha, db, c', op, e.bytes);
      }
    }
  }

  /** Whatever the remote sends and however operations complete: at every moment at most
      one operation is in flight, the size it asked for is the one the connection and the
      block expect, and no assertion on sizes or states fires; the close handler is posted
      once, when the connection closes. Unless an operation was
      aborted, exactly one is in flight until the connection closes or a lookup fails. */
  lemma {:induction false} RunsAreConsistent(sha: Digest, db: Database, c: Conn, events: seq<Event>)
    requires Consistent(c) && PossibleRun(sha, db, c, events)
    ensures var c' := ConnAfter(sha, db, c, events);
            && Consistent(c')
            && (Live(c, false) && Failed(true) !in events ==> Live(c', false))
    decreases |events|
  {
    if events != [] {
      ReactKeepsConsistent(sha, db, c, events[0]);
      RunsAreConsistent(sha, db, React(sha, db, c, events[0]), events[1..]);
    }
  }

  lemma NewConnectionIsConsistent()
    ensures Consistent(NEW_CONN) && Live(NEW_CONN, false)
  {
  }

  /** An accepted connection waits for a command and has sent nothing. */
  lemma AcceptedAwaits(sha: Digest, db: Database, c: Conn)
    requires Possible(c, Init)
    ensures var c' := React(sha, db, c, Init);
            AwaitsCommand(c') && c'.sent == c.sent && c'.block == c.block && c'.closings == c.closings
  {
    assert [] + [ReadExactly(1)] == [ReadExactly(1)];
  }

  // ---- Failures and refusals

  /** A read or a chunk that fails without being aborted; the end of the stream is one. */
  predicate Breaks(c: Conn, e: Event) {
    e == Failed(false) && c.pending != [] && !c.pending[0].SendRequest? && !c.pending[0].SendHeader?
  }

  /** The connection is closed, its close handler was posted once, nothing is in flight and
      nothing more was sent. */
  predicate ClosedAfter(c: Conn, c': Conn) {
    c'.state == Closed && c'.pending == [] && c'.closings == 1 && c'.sent == c.sent && c'.block == c.block
  }

  lemma FailureCloses(sha: Digest, db: Database, c: Conn, e: Event)
    requires Consistent(c) && Possible(c, e) && Breaks(c, e)
    ensures ClosedAfter(c, React(sha, db, c, e))
  {
    assert c.pending[1..] == [];
  }

  /** An aborted read or chunk leaves everything but the operation. */
  lemma AbortLeaves(sha: Digest, db: Database, c: Conn)
    requires Consistent(c) && Possible(c, Failed(true))
    requires !c.pending[0].SendRequest? && !c.pending[0].SendHeader?
    ensures React(sha, db, c, Failed(true)) == c.(pending := [])
  {
    assert c.pending[1..] == [];
  }

  /** on_writeSent does not look at errors: a request or header that fails is taken as sent. */
  lemma FailedWriteIsIgnored(sha: Digest, db: Database, c: Conn, aborted: bool)
    requires Possible(c, Failed(aborted)) && (c.pending[0].SendRequest? || c.pending[0].SendHeader?)
    ensures Possible(c, Completed([]))
    ensures React(sha, db, c, Failed(aborted)) == React(sha, db, c, Completed([]))
  {
  }

  /** Some event of the run breaks the connection. */
  predicate BreaksIn(sha: Digest, db: Database, c: Conn, events: seq<Event>)
    requires PossibleRun(sha, db, c, events)
    decreases |events|
  {
    events != [] && (Breaks(c, events[0]) || BreaksIn(sha, db, React(sha, db, c, events[0]), events[1..]))
  }

  /** Such a run ends there, closed, with the close handler posted once. */
  lemma {:induction false} BrokenRunEndsClosed(sha: Digest, db: Database, c: Conn, events: seq<Event>)
    requires Consistent(c) && PossibleRun(sha, db, c, events) && BreaksIn(sha, db, c, events)
    ensures var c' := ConnAfter(sha, db, c, events);
            c'.state == Closed && c'.pending == [] && c'.closings == 1
    decreases |events|
  {
    var next := React(sha, db, c, events[0]);
    if Breaks(c, events[0]) {
      FailureCloses(sha, db, c, events[0]);
      NothingAfterClosing(sha, db, next, events[1..]);
    } else {
      ReactKeepsConsistent(sha, db, c, events[0]);
      BrokenRunEndsClosed(sha, db, next, events[1..]);
    }
  }

  lemma NothingAfterClosing(sha: Digest, db: Database, c: Conn, events: seq<Event>)
    requires c.state == Closed && c.pending == [] && PossibleRun(sha, db, c, events)
    ensures events == []
  {
  }

  /** A waiting connection that reads any other byte than D closes. */
  lemma OtherCommandCloses(sha: Digest, db: Database, c: Conn, command: byte)
    requires Consistent(c) && AwaitsCommand(c) && command != 68
    ensures Possible(c, Completed([command]))
    ensures ClosedAfter(c, React(sha, db, c, Completed([command])))
  {
    assert c.pending[1..] == [];
  }

  /** A request for an unknown root hash, or for a block that starts at the end of the file
      or after it, sends nothing and is a failed lookup. */
  lemma UnknownBlockIsNotServed(sha: Digest, db: Database, c: Conn, key: Hash, index: uint32)
    requires c.state == Uploading && !c.parsedArgs && c.fault == NoFault
    requires c.pending == [ReadExactly(HASH_SIZE + 4)]
    requires db(key).None? || StartIndex(index) >= |db(key).value|
    ensures Possible(c, Completed(key + BigEndian32(index)))
    ensures var c' := React(sha, db, c, Completed(key + BigEndian32(index)));
            c'.fault == Lookup && c'.sent == c.sent && c'.pending == []
  {
    var args := key + BigEndian32(index);
    assert c.pending[1..] == [];
    assert args[..HASH_SIZE] == key && args[HASH_SIZE..] == BigEndian32(index);
    BigEndian32RoundTrip(index);
  }

  // ---- Whole exchanges

  /** A connection that waits for a command. */
  predicate AwaitsCommand(c: Conn) {
    c.state == Idle && c.pending == [ReadExactly(1)] && c.fault == NoFault
  }

  /** That many writes complete. */
  function Acks(n: nat): (events: seq<Event>)
    ensures |events| == n && forall i :: 0 <= i < n ==> events[i] == Completed([])
  {
    seq(n, _ => Completed([]))
  }

  lemma RunHead(sha: Digest, db: Database, c: Conn, e: Event, rest: seq<Event>)
    requires Possible(c, e) && PossibleRun(sha, db, React(sha, db, c, e), rest)
    ensures PossibleRun(sha, db, c, [e] + rest)
    ensures ConnAfter(sha, db, c, [e] + rest) == ConnAfter(sha, db, React(sha, db, c, e), rest)
  {
    assert ([e] + rest)[1..] == rest;
  }

  lemma AckStep(sha: Digest, db: Database, c: Conn, start: nat, end: nat, failed: bool)
    requires c.state == Uploading && c.fault == NoFault && start <= |c.content|
    requires c.pending == [SendChunk(start, end, failed)] || (c.pending == [SendHeader(start, end)] && !failed)
    ensures Possible(c, Completed([]))
    ensures React(sha, db, c, Completed([])) ==
            match NextChunk(c.content, start, end, failed)
            case None => c.(state := Idle, pending := [ReadExactly(1)])
            case Some(chunk) =>
              c.(sent := c.sent + chunk,
                 pending := [SendChunk(start + |chunk|, end, start + CHUNK_SIZE > |c.content|)])
  {
    assert c.pending[1..] == [];
  }

  /** As the writes complete these chunks go out, and the connection then waits for a
      command. */
  ghost predicate SendsAll(sha: Digest, db: Database, c: Conn, chunks: seq<seq<byte>>) {
    var events := Acks(|chunks| + 1);
    && PossibleRun(sha, db, c, events)
    && ConnAfter(sha, db, c, events)
       == c.(state := Idle, pending := [ReadExactly(1)], sent := c.sent + Concat(chunks))
  }

  lemma SendsNoMore(sha: Digest, db: Database, c: Conn)
    requires Possible(c, Completed([]))
    requires React(sha, db, c, Completed([])) == c.(state := Idle, pending := [ReadExactly(1)])
    ensures SendsAll(sha, db, c, [])
  {
    assert Acks(1) == [Completed([])] + [];
    RunHead(sha, db, c, Completed([]), []);
    assert c.sent + Concat([]) == c.sent;
  }

  lemma SendsOneMore(sha: Digest, db: Database, c: Conn, next: seq<Operation>, chunk: seq<byte>, rest: seq<seq<byte>>)
    requires Possible(c, Completed([]))
    requires React(sha, db, c, Completed([])) == c.(sent := c.sent + chunk, pending := next)
    requires SendsAll(sha, db, c.(sent := c.sent + chunk, pending := next), rest)
    ensures SendsAll(sha, db, c, [chunk] + rest)
  {
    assert Acks(|rest| + 2) == [Completed([])] + Acks(|rest| + 1);
    RunHead(sha, db, c, Completed([]), Acks(|rest| + 1));
    assert ([chunk] + rest)[1..] == rest;
    assert (c.sent + chunk) + Concat(rest) == c.sent + (chunk + Concat(rest));
  }

  /** The on_write callbacks of one upload: every chunk goes out, then the connection waits
      for a command again. */
  lemma {:induction false} ChunksAreSent(sha: Digest, db: Database, c: Conn, start: nat, end: nat, failed: bool)
    requires c.state == Uploading && c.fault == NoFault && start <= |c.content|
    requires c.pending == [SendChunk(start, end, failed)] || (c.pending == [SendHeader(start, end)] && !failed)
    ensures SendsAll(sha, db, c, Chunks(c.content, start, end, failed))
    decreases !failed, |c.content| - start
  {
    AckStep(sha, db, c, start, end, failed);
    match NextChunk(c.content, start, end, failed)
    case None => SendsNoMore(sha, db, c);
    case Some(chunk) =>
      var failed', next := start + CHUNK_SIZE > |c.content|, start + |chunk|;
      var pending := [SendChunk(next, end, failed')];
      ChunksAreSent(sha, db, c.(sent := c.sent + chunk, pending := pending), next, end, failed');
      SendsOneMore(sha, db, c, pending, chunk, Chunks(c.content, next, end, failed'));
  }

  /** The events of serving a request for a block that the database has. */
  function ServeEvents(content: seq<byte>, key: Hash, index: uint32): seq<Event>
    requires StartIndex(index) < |content|
  {
    [Completed([COMMAND_DOWNLOAD]), Completed(key + BigEndian32(index))]
    + Acks(|Chunks(content, StartIndex(index), EndIndex(content, index), false)| + 1)
  }

  /** A waiting connection that reads a request sends the block's header and exactly its
      data, and then waits for the next command. */
  lemma RequestIsServed(sha: Digest, db: Database, c: Conn, key: Hash, index: uint32)
    requires AwaitsCommand(c) && db(key).Some? && StartIndex(index) < |db(key).value|
    ensures var content := db(key).value;
            var events := ServeEvents(content, key, index);
            && PossibleRun(sha, db, c, events)
            && AwaitsCommand(ConnAfter(sha, db, c, events))
            && ConnAfter(sha, db, c, events).sent
               == c.sent + BlockHeader(sha, content, index) + SentData(content, index)
  {
    var content, args := db(key).value, key + BigEndian32(index);
    var events := ServeEvents(content, key, index);
    var acks := Acks(|Chunks(content, StartIndex(index), EndIndex(content, index), false)| + 1);
    assert c.pending[1..] == [];
    var c1 := React(sha, db, c, events[0]);
    assert c1 == c.(state := Uploading, parsedArgs := false, pending := [ReadExactly(HASH_SIZE + 4)]);
    assert c1.pending[1..] == [];
    assert args[..HASH_SIZE] == key && args[HASH_SIZE..] == BigEndian32(index);
    BigEndian32RoundTrip(index);
    var c2 := React(sha, db, c1, events[1]);
    ChunksAreSent(sha, db, c2, StartIndex(index), EndIndex(content, index), false);
    RunHead(sha, db, c1, events[1], acks);
    RunHead(sha, db, c, events[0], [events[1]] + acks);
    assert events == [events[0]] + ([events[1]] + acks);
  }

  /** The events of one download: the request is written, then the fragments arrive. */
  function FragmentEvents(chunks: seq<seq<byte>>): (events: seq<Event>)
    ensures |events| == |chunks|
  {
    seq(|chunks|, i requires 0 <= i < |chunks| => Completed(chunks[i]))
  }

  /** The reads in flight are those that download asked for. */
  predicate Receiving(c: Conn) {
    && c.state == Downloading && c.fault == NoFault && Sound(c.block) && |c.pending| == 1
    && match c.pending[0]
       case ReadExactly(n) => c.block.phase in {NbHash, Phase.HashList, Phase.Size} && SizeAsserted(c.block, n)
       case ReadSome => c.block.phase == Data
       case _ => false
  }

  /** Fragments hold at least a byte and at most a read buffer. */
  predicate Buffered(chunks: seq<seq<byte>>) {
    forall i :: 0 <= i < |chunks| ==> 1 <= |chunks[i]| <= READ_BUFFER
  }

  /** A connection hands the fragments to its Block one by one, and waits for a command
      once the Block has all it needs. */
  lemma {:induction false} FragmentsAreFed(sha: Digest, db: Database, c: Conn, chunks: seq<seq<byte>>)
    requires Receiving(c) && Buffered(chunks) && Obeys(sha, c.block, chunks)
    requires var f := Feed(sha, c.block, chunks); f.Finished? && f.unread == []
    ensures var events := FragmentEvents(chunks);
            && PossibleRun(sha, db, c, events)
            && AwaitsCommand(ConnAfter(sha, db, c, events))
            && ConnAfter(sha, db, c, events).block == Feed(sha, c.block, chunks).state
    decreases |chunks|
  {
    var events, chunk := FragmentEvents(chunks), chunks[0];
    assert c.pending[1..] == [];
    assert Possible(c, events[0]);
    var c' := React(sha, db, c, events[0]);
    assert events == [events[0]] + FragmentEvents(chunks[1..]);
    var a := Step(sha, c.block, chunk);
    if a.more {
      FragmentsAreFed(sha, db, c', chunks[1..]);
    } else {
      assert chunks[1..] == [];
    }
    RunHead(sha, db, c, events[0], FragmentEvents(chunks[1..]));
  }

  // ---- The object

  class Peer {
    const sha: Digest
    const db: Database
    const block: Block
    var state: ConnState
    var parsedArgs: bool
    var pending: seq<Operation>
    var content: seq<byte>
    var sent: seq<byte>
    var closings: nat
    var fault: Fault

    function Connection(): Conn
      reads this, block
    {
      Conn(state, parsedArgs, block.State(), pending, content, sent, closings, fault)
    }

    constructor (sha: Digest, db: Database)
      ensures this.sha == sha && this.db == db && fresh(block) && block.sha == sha
      ensures Connection() == NEW_CONN
    {
      this.sha, this.db := sha, db;
      block := new Block(sha);
      state, parsedArgs, pending, content, sent, closings, fault := NewPeer, false, [], [], [], 0, NoFault;
    }

    method AsyncReadBytes(bytes: nat)
      modifies this
      ensures Connection() == ReadBytes(old(Connection()), bytes)
    {
      if bytes == 0 {
        pending := pending + [ReadSome];
      } else {
        pending := pending + [ReadExactly(if bytes < READ_BUFFER then bytes else READ_BUFFER)];
      }
    }

    method Close()
      modifies this
      ensures Connection() == Disconnect(old(Connection()))
    {
      if state != Closed {
        state := Closed;
        closings := closings + 1;
      }
    }

    method Start()
      modifies this
      requires Possible(Connection(), Init)
      ensures Connection() == React(sha, db, old(Connection()), Init)
    {
      state := Idle;
      AsyncReadBytes(1);
    }

    method RequestBlock(key: Hash, index: uint32)
      modifies this
      requires Possible(Connection(), Download(key, index))
      ensures Connection() == React(sha, db, old(Connection()), Download(key, index))
    {
      state := Downloading;
      var packet := [COMMAND_DOWNLOAD] + key + BigEndian32(index);
      sent := sent + packet;
      pending := pending + [SendRequest];
    }

    method OnDownloadRead(buffer: seq<byte>)
      requires block.sha == sha && Sound(block.State())
      modifies this, block
      ensures Connection() == OnDownload(sha, old(Connection()), buffer)
    {
      if state != Downloading || !SizeAsserted(block.State(), |buffer|) {
        fault := SizeOrState;
        return;
      }
      var more, toRead := block.Download(buffer);
      if more {
        AsyncReadBytes(toRead);
      } else {
        state := Idle;
        AsyncReadBytes(1);
      }
    }

    method UploadBlock(key: Hash, index: uint32)
      modifies this
      ensures Connection() == SendBlock(sha, db, old(Connection()), key, index)
    {
      if state != Uploading {
        fault := SizeOrState;
        return;
      }
      var found := db(key);
      if found.None? || StartIndex(index) >= |found.value| {
        fault := Lookup;
        return;
      }
      content := found.value;
      var list := OwnList(sha, LeafHashes(sha, content), index);
      var header := BuildHeader(list, EndIndex(content, index) - StartIndex(index));
      sent := sent + header[..];
      pending := pending + [SendHeader(StartIndex(index), EndIndex(content, index))];
    }

    method ReadCompleted(buffer: seq<byte>)
      requires block.sha == sha && Sound(block.State())
      modifies this, block
      ensures Connection() == OnRead(sha, db, old(Connection()), buffer)
    {
      if state == Idle {
        if |buffer| != 1 {
          fault := SizeOrState;
        } else if buffer[0] == COMMAND_DOWNLOAD {
          state := Uploading;
          parsedArgs := false;
          AsyncReadBytes(HASH_SIZE + 4);
        } else {
          Close();
        }
      } else if state == Uploading && !parsedArgs {
        if |buffer| != HASH_SIZE + 4 {
          fault := SizeOrState;
          return;
        }
        parsedArgs := true;
        UploadBlock(buffer[..HASH_SIZE], FromBigEndian32(buffer[HASH_SIZE..]));
      } else if state == Downloading {
        OnDownloadRead(buffer);
      }
    }

    method WriteCompleted(start: nat, end: nat, failed: bool)
      modifies this
      ensures Connection() == OnWrite(old(Connection()), start, end, failed)
    {
      if state != Uploading {
        return;
      }
      if start > |content| {
        fault := SizeOrState;
        return;
      }
      var chunk := NextChunk(content, start, end, failed);
      if chunk.Some? {
        sent := sent + chunk.value;
        pending := pending + [SendChunk(start + |chunk.value|, end, start + CHUNK_SIZE > |content|)];
      } else {
        state := Idle;
        AsyncReadBytes(1);
      }
    }

    /** The completion handler of the oldest operation in flight. */
    method Complete(e: Event)
      requires e.Completed? || e.Failed?
      requires block.sha == sha && Possible(Connection(), e) && Consistent(Connection())
      modifies this, block
      ensures Connection() == React(sha, db, old(Connection()), e)
      ensures Consistent(Connection())
    {
      ReactKeepsConsistent(sha, db, Connection(), e);
      var op := pending[0];
      pending := pending[1..];
      if op.SendRequest? {
        ReadCompleted([]);
      } else if op.SendHeader? {
        WriteCompleted(op.start, op.end, false);
      } else if e == Failed(true) {
      } else if e == Failed(false) {
        Close();
      } else if op.SendChunk? {
        WriteCompleted(op.start, op.end, op.failed);
      } else {
        ReadCompleted(e.bytes);
      }
    }
  }
}
