/** From a complete file on one peer to the tree of a download on another: header and
    chunks out, any fragments in, checkBlock at the end. */
module Transfers {
  import opened Hashes
  import opened Endian
  import opened Merkle
  import opened PartialTree
  import opened BlockProof
  import opened FileFormat
  import opened Files
  import opened CompleteFiles
  import opened Downloads
  import opened Blocks
  import opened Sending
  import opened Peers

  /** A block of a non-empty file whose start fits 32 bits (Sending.StartIndex). */
  predicate Uploadable(content: seq<byte>, b: nat) {
    content != [] && b < BlockCount(|content|) <= WORD32 && b <= 268
  }

  /** The call a receiver can make for block b once download has returned false. */
  function ReceivedCall(f: Feeding, b: nat): Call
    requires f.Finished? && f.state.hash.Some? && AllSet(f.state.hashList)
  {
    Call(b, f.state.hash.value, Values(f.state.hashList))
  }

  lemma {:induction false} DepthBelowSize(t: Tree, n: nat)
    requires Shaped(t, n)
    ensures |t| <= n
    decreases |t|
  {
    if n > 1 {
      DepthBelowSize(t[1..], Up(n));
    }
  }

  /** The list of any addressable block fits the header, and so does its size. */
  lemma UploadFits(sha: Digest, content: seq<byte>, b: nat)
    requires Uploadable(content, b)
    ensures StartIndex(b) < |content|
    ensures |OwnCall(sha, LeafHashes(sha, content), b).list| < WORD32
    ensures SentData(content, b) == BlockOf(content, b) && 0 < |SentData(content, b)| < WORD32
  {
    DepthBelowSize(TreeOf(sha, Somes(LeafHashes(sha, content))), BlockCount(|content|));
    assert b * BLOCK_SIZE < |content|;
    SentIsRange(content, b);
    SendsItsBlockIffStartFits(b);
    assert SendsItsBlock(content, b);
  }

  /** All that sendBlock and its on_write chain put on the socket for block b. */
  function UploadBytes(sha: Digest, content: seq<byte>, b: nat): seq<byte>
    requires Uploadable(content, b)
  {
    UploadFits(sha, content, b);
    BlockHeader(sha, content, b) + SentData(content, b)
  }

  /** Uploading a block of a complete file to a Block used for the first time, in whatever
      fragments the requests allow, gives the receiver exactly the call that checkBlock
      accepts: the block's own hash and list. */
  lemma UploadArrives(sha: Digest, content: seq<byte>, b: nat, chunks: seq<seq<byte>>)
    requires Uploadable(content, b)
    requires Obeys(sha, Step(sha, FRESH, []).next, chunks)
    requires Concat(chunks) == UploadBytes(sha, content, b)
    ensures var f := Feed(sha, Step(sha, FRESH, []).next, chunks);
            && f.Finished? && f.state.hash.Some? && AllSet(f.state.hashList)
            && f.state.fed == BlockOf(content, b) && Concat(f.unread) == []
            && ReceivedCall(f, b) == OwnCall(sha, LeafHashes(sha, content), b)
  {
    UploadFits(sha, content, b);
    SentIsRange(content, b);
    var own, data := OwnCall(sha, LeafHashes(sha, content), b), SentData(content, b);
    var first := Step(sha, FRESH, []).next;
    TransferRoundTrip(sha, first, chunks, own.list, data);
    assert [] + data == data;
    var f := Feed(sha, first, chunks);
    assert Values(f.state.hashList) == own.list;
  }

  /** What the requesting connection has just after its request was written. */
  function Asked(sha: Digest, db: Database, key: Hash, b: uint32): Conn {
    var asked := React(sha, db, NEW_CONN, Download(key, b));
    if Possible(asked, Completed([])) then React(sha, db, asked, Completed([])) else asked
  }

  /** A new connection that asks for block b and is sent that block's upload, in any
      fragments its reads allow, ends up waiting for a command with exactly the block's own
      hash and list. */
  lemma BlockIsFetched(sha: Digest, db: Database, key: Hash, content: seq<byte>, b: nat, chunks: seq<seq<byte>>)
    requires Uploadable(content, b)
    requires Sound(Asked(sha, db, key, b).block)
    requires Buffered(chunks) && Obeys(sha, Asked(sha, db, key, b).block, chunks)
    requires Concat(chunks) == UploadBytes(sha, content, b)
    ensures var asking := [Download(key, b), Completed([])] + FragmentEvents(chunks);
            && PossibleRun(sha, db, NEW_CONN, asking)
            && var client := ConnAfter(sha, db, NEW_CONN, asking);
               && AwaitsCommand(client) && client.block.hash.Some? && AllSet(client.block.hashList)
               && Call(b, client.block.hash.value, Values(client.block.hashList))
                  == OwnCall(sha, LeafHashes(sha, content), b)
  {
    var asked, ready := React(sha, db, NEW_CONN, Download(key, b)), Asked(sha, db, key, b);
    AskedReceives(sha, db, key, b);
    UploadArrives(sha, content, b, chunks);
    NoChunkLeft(Feed(sha, ready.block, chunks), sha, ready.block, chunks);
    FragmentsAreFed(sha, db, ready, chunks);
    RunHead(sha, db, asked, Completed([]), FragmentEvents(chunks));
    RunHead(sha, db, NEW_CONN, Download(key, b), [Completed([])] + FragmentEvents(chunks));
    assert [Download(key, b), Completed([])] + FragmentEvents(chunks)
        == [Download(key, b)] + ([Completed([])] + FragmentEvents(chunks));
  }

  /** A connection that awaits a command and reads exactly what the other sent as its request
      answers with the block's upload and awaits the next command. */
  lemma RequestIsAnswered(sha: Digest, db: Database, server: Conn, key: Hash, content: seq<byte>, b: nat)
    requires Uploadable(content, b) && AwaitsCommand(server) && db(key) == Some(content)
    ensures StartIndex(b) < |content|
    ensures var served := ServeEvents(content, key, b);
            && served[0].bytes + served[1].bytes == Asked(sha, db, key, b).sent
            && PossibleRun(sha, db, server, served)
            && AwaitsCommand(ConnAfter(sha, db, server, served))
            && ConnAfter(sha, db, server, served).sent == server.sent + UploadBytes(sha, content, b)
  {
    UploadFits(sha, content, b);
    RequestIsServed(sha, db, server, key, b);
    AskedReceives(sha, db, key, b);
    var header, data := BlockHeader(sha, content, b), SentData(content, b);
    Associated(server.sent, header, data);
    Associated([COMMAND_DOWNLOAD], key, BigEndian32(b));
  }

  lemma Associated(a: seq<byte>, b: seq<byte>, c: seq<byte>)
    ensures a + b + c == a + (b + c)
  {
  }

  lemma AskedReceives(sha: Digest, db: Database, key: Hash, b: uint32)
    ensures var asked := React(sha, db, NEW_CONN, Download(key, b));
            && Possible(NEW_CONN, Download(key, b)) && Possible(asked, Completed([]))
            && Asked(sha, db, key, b) == React(sha, db, asked, Completed([]))
            && Receiving(Asked(sha, db, key, b)) && Asked(sha, db, key, b).sent == Request(key, b)
            && Asked(sha, db, key, b).block == Step(sha, FRESH, []).next
  {
    assert NEW_CONN.pending + [SendRequest] == [SendRequest];
    assert NEW_CONN.sent + Request(key, b) == Request(key, b);
  }

  /** Fragments are not empty, so nothing unread means no fragment left. */
  lemma {:induction false} NoChunkLeft(f: Feeding, sha: Digest, r: Receiver, chunks: seq<seq<byte>>)
    requires Sound(r) && Obeys(sha, r, chunks) && f == Feed(sha, r, chunks)
    requires f.Finished? && Concat(f.unread) == [] && forall i :: 0 <= i < |chunks| ==> chunks[i] != []
    ensures f.unread == []
    decreases |chunks|
  {
    var a := Step(sha, r, chunks[0]);
    if a.more {
      NoChunkLeft(f, sha, a.next, chunks[1..]);
    }
  }

  // ---- Both connections and checkBlock

  /** One block's exchange: the connection that serves it, and the fragments in which the
      requesting connection reads what that connection sends. */
  datatype Exchange = Exchange(server: Conn, fragments: seq<seq<byte>>)

  /** The bytes the server puts on the socket for the request. */
  function Served(sha: Digest, db: Database, server: Conn, key: Hash, content: seq<byte>, b: nat): seq<byte>
    requires Uploadable(content, b)
    requires AwaitsCommand(server) && db(key) == Some(content)
  {
    RequestIsAnswered(sha, db, server, key, content, b);
    ConnAfter(sha, db, server, ServeEvents(content, key, b)).sent[|server.sent|..]
  }

  /** The requesting connection reads exactly those bytes, as its reads allow. */
  predicate Exchanged(sha: Digest, db: Database, key: Hash, content: seq<byte>, b: nat, x: Exchange)
    requires Uploadable(content, b)
  {
    && AwaitsCommand(x.server) && db(key) == Some(content)
    && Buffered(x.fragments)
    && Sound(Asked(sha, db, key, b).block) && Obeys(sha, Asked(sha, db, key, b).block, x.fragments)
    && Concat(x.fragments) == Served(sha, db, x.server, key, content, b)
  }

  function AskingEvents(key: Hash, b: uint32, fragments: seq<seq<byte>>): seq<Event> {
    [Download(key, b), Completed([])] + FragmentEvents(fragments)
  }

  /** The call of checkBlock that the requesting connection's Block then allows. */
  function FetchedCall(sha: Digest, db: Database, key: Hash, content: seq<byte>, b: nat, x: Exchange): Call
    requires Uploadable(content, b) && Exchanged(sha, db, key, content, b, x)
  {
    ExchangeFetches(sha, db, key, content, b, x);
    var block := ConnAfter(sha, db, NEW_CONN, AskingEvents(key, b, x.fragments)).block;
    Call(b, block.hash.value, Values(block.hashList))
  }

  /** Request, upload and reception of one block: both connections wait for a command again,
      and the receiver holds exactly the block's own hash and list. */
  lemma ExchangeFetches(sha: Digest, db: Database, key: Hash, content: seq<byte>, b: nat, x: Exchange)
    requires Uploadable(content, b) && Exchanged(sha, db, key, content, b, x)
    ensures StartIndex(b) < |content|
    ensures PossibleRun(sha, db, x.server, ServeEvents(content, key, b))
    ensures AwaitsCommand(ConnAfter(sha, db, x.server, ServeEvents(content, key, b)))
    ensures PossibleRun(sha, db, NEW_CONN, AskingEvents(key, b, x.fragments))
    ensures var client := ConnAfter(sha, db, NEW_CONN, AskingEvents(key, b, x.fragments));
            && AwaitsCommand(client) && client.block.hash.Some? && AllSet(client.block.hashList)
            && Call(b, client.block.hash.value, Values(client.block.hashList))
               == OwnCall(sha, LeafHashes(sha, content), b)
  {
    RequestIsAnswered(sha, db, x.server, key, content, b);
    assert Served(sha, db, x.server, key, content, b) == UploadBytes(sha, content, b);
    BlockIsFetched(sha, db, key, content, b, x.fragments);
  }

  /** Whoever asks a complete peer for every block, one connection each, reads what it sends
      in any fragments, and passes what it then holds to checkBlock, in any order and among
      any other calls that exhibit no collision, ends with the peer's whole tree. */
  lemma SharedFileArrives(sha: Digest, db: Database, key: Hash, content: seq<byte>,
                          exchanges: seq<Exchange>, calls: seq<Call>)
    requires content != [] && |exchanges| == BlockCount(|content|) <= 269
    requires forall b: nat :: b < |exchanges| ==> Exchanged(sha, db, key, content, b, exchanges[b])
    requires forall b: nat :: b < |exchanges| ==> FetchedCall(sha, db, key, content, b, exchanges[b]) in calls
    requires CallsInRange(calls, BlockCount(|content|))
    requires NoForgery(sha, LeafHashes(sha, content), calls)
    ensures var leaves := LeafHashes(sha, content);
            var p := Run(sha, Start(|leaves|, TreeHash(sha, leaves)), calls);
            && (forall b :: 0 <= b < |leaves| ==> p.blocks[b])
            && p.tree == TreeOf(sha, Somes(leaves))
  {
    var leaves := LeafHashes(sha, content);
    forall b: nat | b < |leaves| ensures OwnCall(sha, leaves, b) in calls {
      ExchangeFetches(sha, db, key, content, b, exchanges[b]);
      assert FetchedCall(sha, db, key, content, b, exchanges[b]) == OwnCall(sha, leaves, b);
    }
    DownloadCompletes(sha, leaves, calls);
  }
}
