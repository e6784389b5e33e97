/** The receiver of one block (Block.cpp): a resumable state machine fed by whatever
    fragments the socket delivers. */
module Blocks {
  import opened Hashes
  import opened Endian

  datatype Phase = NewlyCreated | NbHash | HashList | Size | Data

  datatype Receiver = Receiver(phase: Phase, size: nat, readHashes: nat, readBytes: nat,
                               hashList: seq<Slot>, fed: seq<byte>, hash: Slot)

  /** A Block just constructed. */
  const FRESH := Receiver(NewlyCreated, 0, 0, 0, [], [], None)

  predicate Sound(r: Receiver) {
    match r.phase
    case NewlyCreated => true
    case NbHash => r.readHashes == 0 && r.readBytes == 0
    case HashList => r.readHashes < |r.hashList| && r.readBytes == 0
    case Size => r.readBytes == 0
    case Data => r.readBytes <= r.size
  }

  /** The size assertion of each phase. */
  predicate SizeAsserted(r: Receiver, bytes: nat) {
    match r.phase
    case NewlyCreated => bytes == 0
    case NbHash => bytes == 4
    case HashList => bytes == HASH_SIZE
    case Size => bytes == 4
    case Data => true
  }

  /** What download asks for next: 0 stands for "whatever arrives". */
  datatype Reply = Reply(next: Receiver, more: bool, toRead: nat)

  function Step(sha: Digest, r: Receiver, buffer: seq<byte>): (a: Reply)
    requires Sound(r) && SizeAsserted(r, |buffer|)
    ensures Sound(a.next)
  {
    match r.phase
    case NewlyCreated =>
      Reply(r.(phase := NbHash, size := 0, readHashes := 0, readBytes := 0), true, 4)
    case NbHash =>
      var n := FromBigEndian32(buffer);
      var r' := r.(hashList := seq(n, _ => None));
      if n > 0 then Reply(r'.(phase := HashList), true, HASH_SIZE) else Reply(r'.(phase := Size), true, 4)
    case HashList =>
      var h: Hash := buffer;
      var r' := r.(hashList := r.hashList[r.readHashes := Some(h)], readHashes := r.readHashes + 1);
      if |r'.hashList| == r'.readHashes then Reply(r'.(phase := Size), true, 4) else Reply(r', true, HASH_SIZE)
    case Size =>
      Reply(r.(phase := Data, size := FromBigEndian32(buffer)), true, 0)
    case Data =>
      var maxRead := if |buffer| <= r.size - r.readBytes then |buffer| else r.size - r.readBytes;
      var r' := r.(readBytes := r.readBytes + maxRead, fed := r.fed + buffer[..maxRead]);
      if r'.readBytes == r'.size then Reply(r'.(phase := NewlyCreated, hash := Some(sha(r'.fed))), false, 0)
      else Reply(r', true, 0)
  }

  class Block {
    const sha: Digest
    var phase: Phase
    var size: nat
    var readHashes: nat
    var readBytes: nat
    var hashList: seq<Slot>
    var fed: seq<byte>
    var hash: Slot

    function State(): Receiver
      reads this
    {
      Receiver(phase, size, readHashes, readBytes, hashList, fed, hash)
    }

    constructor (sha: Digest)
      ensures this.sha == sha && State() == FRESH
    {
      this.sha := sha;
      hashList, fed, hash := [], [], None;
      size, phase, readBytes, readHashes := 0, NewlyCreated, 0, 0;
    }

    /** init resets the counters but not the hasher. */
    method Init()
      modifies this
      ensures State() == old(State()).(phase := NewlyCreated, size := 0, readHashes := 0, readBytes := 0)
    {
      size := 0;
      phase := NewlyCreated;
      readBytes := 0;
      readHashes := 0;
    }

    method Download(buffer: seq<byte>) returns (more: bool, toRead: nat)
      requires Sound(State()) && SizeAsserted(State(), |buffer|)
      modifies this
      ensures Reply(State(), more, toRead) == Step(sha, old(State()), buffer)
      ensures Sound(State())
    {
      toRead := 0;
      match phase {
        case NewlyCreated =>
          Init();
          phase := NbHash;
          toRead := 4;
        case NbHash =>
          var nbHash := FromBigEndian32(buffer);
          hashList := seq(nbHash, _ => None);
          if nbHash > 0 {
            phase := HashList;
            toRead := HASH_SIZE;
          } else {
            phase := Size;
            toRead := 4;
          }
        case HashList =>
          var h: Hash := buffer;
          hashList := hashList[readHashes := Some(h)];
          readHashes := readHashes + 1;
          if |hashList| == readHashes {
            phase := Size;
            toRead := 4;
          } else {
            toRead := HASH_SIZE;
          }
        case Size =>
          size := FromBigEndian32(buffer);
          phase := Data;
        case Data =>
          var maxRead := if |buffer| <= size - readBytes then |buffer| else size - readBytes;
          readBytes := readBytes + maxRead;
          fed := fed + buffer[..maxRead];
          if readBytes == size {
            hash := Some(sha(fed));
            phase := NewlyCreated;
            return false, toRead;
          }
      }
      return true, toRead;
    }
  }

  // ---- The bytes of one block on the wire

  function ConcatHashes(list: seq<Hash>): seq<byte> {
    if list == [] then [] else list[0] + ConcatHashes(list[1..])
  }

  /** NbHash, the hashes, Size. */
  function Header(list: seq<Hash>, size: nat): seq<byte> {
    BigEndian32(Truncated(|list|)) + ConcatHashes(list) + BigEndian32(Truncated(size))
  }

  function Concat(chunks: seq<seq<byte>>): seq<byte> {
    if chunks == [] then [] else chunks[0] + Concat(chunks[1..])
  }

  // ---- Feeding a stream in fragments

  /** Every fragment has the size download asked for; data comes in any non-empty pieces. */
  predicate Obeys(sha: Digest, r: Receiver, chunks: seq<seq<byte>>)
    requires Sound(r)
    decreases |chunks|
  {
    chunks == [] ||
    (&& SizeAsserted(r, |chunks[0]|) && chunks[0] != []
     && var a := Step(sha, r, chunks[0]);
        a.more ==> Obeys(sha, a.next, chunks[1..]))
  }

  datatype Feeding = Waiting(state: Receiver) | Finished(state: Receiver, unread: seq<seq<byte>>)

  /** Hand the fragments over until download returns false. */
  function Feed(sha: Digest, r: Receiver, chunks: seq<seq<byte>>): Feeding
    requires Sound(r) && Obeys(sha, r, chunks)
    decreases |chunks|
  {
    if chunks == [] then Waiting(r)
    else
      var a := Step(sha, r, chunks[0]);
      if a.more then Feed(sha, a.next, chunks[1..]) else Finished(a.next, chunks[1..])
  }

  /** What the receiver must hold at the end. */
  predicate ReceivedData(sha: Digest, f: Feeding, list: seq<Hash>, before: seq<byte>, data: seq<byte>) {
    && f.Finished?
    && f.state.phase == NewlyCreated
    && |f.state.hashList| == |list| && (forall i :: 0 <= i < |list| ==> f.state.hashList[i] == Some(list[i]))
    && f.state.size == |data| && f.state.readBytes == |data|
    && f.state.fed == before + data && f.state.hash == Some(sha(before + data))
  }

  /** And nothing is left of the stream. */
  predicate Received(sha: Digest, f: Feeding, list: seq<Hash>, before: seq<byte>, data: seq<byte>) {
    ReceivedData(sha, f, list, before, data) && Concat(f.unread) == []
  }

  lemma FirstChunk(chunks: seq<seq<byte>>, head: seq<byte>, tail: seq<byte>)
    requires chunks != [] && Concat(chunks) == head + tail && |chunks[0]| == |head|
    ensures chunks[0] == head && Concat(chunks[1..]) == tail
  {
    assert chunks[0] == Concat(chunks)[..|head|] && head == (head + tail)[..|head|];
    assert Concat(chunks[1..]) == Concat(chunks)[|head|..] && tail == (head + tail)[|head|..];
  }

  /** One fragment of a stream: what it takes of the data, and what remains. */
  lemma CutChunk(chunks: seq<seq<byte>>, data: seq<byte>, at: nat, extra: seq<byte>)
    requires chunks != [] && at <= |data| && Concat(chunks) == data[at..] + extra
    ensures var n := if |chunks[0]| <= |data| - at then |chunks[0]| else |data| - at;
            && chunks[0][..n] == data[at..at + n]
            && (n == |chunks[0]| ==> Concat(chunks[1..]) == data[at + n..] + extra)
            && |Concat(chunks[1..])| <= |data| - at + |extra| - |chunks[0]|
  {
    var c, s := chunks[0], data[at..] + extra;
    var n := if |c| <= |data| - at then |c| else |data| - at;
    assert Concat(chunks) == c + Concat(chunks[1..]);
    assert c == s[..|c|] && Concat(chunks[1..]) == s[|c|..];
    assert c[..n] == s[..n] == data[at..at + n];
    if n == |c| {
      assert s[n..] == data[at + n..] + extra;
    }
  }

  lemma FedOneMore(before: seq<byte>, data: seq<byte>, at: nat, n: nat)
    requires at + n <= |data|
    ensures before + data[..at] + data[at..at + n] == before + data[..at + n]
  {
    assert data[..at] + data[at..at + n] == data[..at + n];
    assert before + data[..at] + data[at..at + n] == before + (data[..at] + data[at..at + n]);
  }

  lemma {:induction false} FeedData(sha: Digest, r: Receiver, chunks: seq<seq<byte>>, list: seq<Hash>,
                                    before: seq<byte>, data: seq<byte>, extra: seq<byte>)
    requires Sound(r) && Obeys(sha, r, chunks) && r.phase == Data
    requires r.size == |data| && r.readBytes < |data| && Concat(chunks) == data[r.readBytes..] + extra
    requires r.fed == before + data[..r.readBytes]
    requires |r.hashList| == |list| && forall i :: 0 <= i < |list| ==> r.hashList[i] == Some(list[i])
    ensures var f := Feed(sha, r, chunks);
            ReceivedData(sha, f, list, before, data) && |Concat(f.unread)| <= |extra|
    decreases |chunks|
  {
    var c, a := chunks[0], Step(sha, r, chunks[0]);
    CutChunk(chunks, data, r.readBytes, extra);
    var n := if |c| <= |data| - r.readBytes then |c| else |data| - r.readBytes;
    var at := r.readBytes + n;
    FedOneMore(before, data, r.readBytes, n);
    if a.more {
      FeedData(sha, a.next, chunks[1..], list, before, data, extra);
    } else {
      assert data[..at] == data;
    }
  }

  lemma FeedSize(sha: Digest, r: Receiver, chunks: seq<seq<byte>>, list: seq<Hash>, data: seq<byte>, extra: seq<byte>)
    requires 0 < |data| < WORD32
    requires Sound(r) && Obeys(sha, r, chunks) && r.phase == Size
    requires Concat(chunks) == BigEndian32(|data|) + (data + extra)
    requires |r.hashList| == |list| && forall i :: 0 <= i < |list| ==> r.hashList[i] == Some(list[i])
    ensures var f := Feed(sha, r, chunks);
            ReceivedData(sha, f, list, r.fed, data) && |Concat(f.unread)| <= |extra|
  {
    assert chunks != [];
    FirstChunk(chunks, BigEndian32(|data|), data + extra);
    BigEndian32RoundTrip(|data|);
    var a := Step(sha, r, chunks[0]);
    assert data[0..] == data && r.fed + data[..0] == r.fed;
    FeedData(sha, a.next, chunks[1..], list, r.fed, data, extra);
  }

  lemma {:induction false} FeedHashes(sha: Digest, r: Receiver, chunks: seq<seq<byte>>, list: seq<Hash>,
                                      data: seq<byte>, extra: seq<byte>)
    requires 0 < |data| < WORD32
    requires Sound(r) && Obeys(sha, r, chunks) && r.phase == HashList
    requires |r.hashList| == |list| && forall i :: 0 <= i < r.readHashes ==> r.hashList[i] == Some(list[i])
    requires Concat(chunks) == ConcatHashes(list[r.readHashes..]) + (BigEndian32(|data|) + (data + extra))
    ensures var f := Feed(sha, r, chunks);
            ReceivedData(sha, f, list, r.fed, data) && |Concat(f.unread)| <= |extra|
    decreases |chunks|
  {
    var k, tail := r.readHashes, BigEndian32(|data|) + (data + extra);
    assert list[k..][1..] == list[k + 1..];
    assert ConcatHashes(list[k..]) + tail == list[k] + (ConcatHashes(list[k + 1..]) + tail);
    FirstChunk(chunks, list[k], ConcatHashes(list[k + 1..]) + tail);
    var a := Step(sha, r, chunks[0]);
    if k + 1 == |list| {
      assert ConcatHashes(list[k + 1..]) + tail == tail;
      FeedSize(sha, a.next, chunks[1..], list, data, extra);
    } else {
      FeedHashes(sha, a.next, chunks[1..], list, data, extra);
    }
  }

  lemma HeaderThenData(list: seq<Hash>, data: seq<byte>)
    requires |list| < WORD32 && |data| < WORD32
    ensures Header(list, |data|) + data
         == BigEndian32(|list|) + (ConcatHashes(list) + (BigEndian32(|data|) + data))
  {
    TruncatedIfSmall(|list|);
    TruncatedIfSmall(|data|);
    Regrouped(BigEndian32(|list|), ConcatHashes(list), BigEndian32(|data|), data);
  }

  lemma Regrouped(a: seq<byte>, b: seq<byte>, c: seq<byte>, d: seq<byte>)
    ensures a + b + c + d == a + (b + (c + d))
  {
  }

  /** Where the parts of a header are: the number of hashes, the hashes, the size. */
  lemma HeaderLayout(list: seq<Hash>, size: nat)
    requires |list| < WORD32 && size < WORD32
    ensures var h := Header(list, size);
            && |h| == 8 + 20 * |list|
            && h[..4] == BigEndian32(|list|) && h[|h| - 4..] == BigEndian32(size)
            && forall i :: 0 <= i < |list| ==> h[4 + 20 * i..24 + 20 * i] == list[i]
  {
    var h := Header(list, size);
    TruncatedIfSmall(|list|);
    TruncatedIfSmall(size);
    forall i | 0 <= i < |list|
      ensures |ConcatHashes(list)| == 20 * |list| && ConcatHashes(list)[20 * i..20 * i + 20] == list[i]
      ensures h[4 + 20 * i..24 + 20 * i] == list[i]
    {
      HashPlace(list, i);
      assert h[4 + 20 * i..24 + 20 * i] == ConcatHashes(list)[20 * i..20 * i + 20];
    }
    if list == [] {
      assert ConcatHashes(list) == [];
    } else {
      HashPlace(list, 0);
    }
  }

  lemma {:induction false} HashPlace(list: seq<Hash>, i: nat)
    requires i < |list|
    ensures |ConcatHashes(list)| == 20 * |list| && ConcatHashes(list)[20 * i..20 * i + 20] == list[i]
    decreases |list|
  {
    var rest := ConcatHashes(list[1..]);
    if |list| > 1 {
      HashPlace(list[1..], if i > 0 then i - 1 else 0);
    }
    if i > 0 {
      SliceOfTail(list[0], rest, 20 * (i - 1), 20);
    } else {
      SliceOfHead(list[0], rest, 0, 20);
    }
  }

  /** Whatever follows the announced size: the receiver ends with the sent list and size and
      the digest of exactly that many bytes, after whatever the hasher held before. */
  lemma ExtraIsCut(sha: Digest, r: Receiver, chunks: seq<seq<byte>>, list: seq<Hash>, data: seq<byte>,
                   extra: seq<byte>)
    requires |list| < WORD32 && 0 < |data| < WORD32
    requires Sound(r) && r.phase == NbHash && Obeys(sha, r, chunks)
    requires Concat(chunks) == Header(list, |data|) + data + extra
    ensures var f := Feed(sha, r, chunks);
            ReceivedData(sha, f, list, r.fed, data) && |Concat(f.unread)| <= |extra|
  {
    var tail := BigEndian32(|data|) + (data + extra);
    HeaderThenMore(list, data, extra);
    FirstChunk(chunks, BigEndian32(|list|), ConcatHashes(list) + tail);
    BigEndian32RoundTrip(|list|);
    var a := Step(sha, r, chunks[0]);
    assert list[0..] == list;
    if list == [] {
      assert ConcatHashes(list) + tail == tail;
      FeedSize(sha, a.next, chunks[1..], list, data, extra);
    } else {
      FeedHashes(sha, a.next, chunks[1..], list, data, extra);
    }
  }

  lemma HeaderThenMore(list: seq<Hash>, data: seq<byte>, extra: seq<byte>)
    requires |list| < WORD32 && |data| < WORD32
    ensures Header(list, |data|) + data + extra
         == BigEndian32(|list|) + (ConcatHashes(list) + (BigEndian32(|data|) + (data + extra)))
  {
    TruncatedIfSmall(|list|);
    TruncatedIfSmall(|data|);
    RegroupedMore(BigEndian32(|list|), ConcatHashes(list), BigEndian32(|data|), data, extra);
  }

  lemma RegroupedMore(a: seq<byte>, b: seq<byte>, c: seq<byte>, d: seq<byte>, e: seq<byte>)
    ensures a + b + c + d + e == a + (b + (c + (d + e)))
  {
    Regrouped(a + b, c, d, e);
    Regrouped(a, b, c, d + e);
  }

  /** For a non-empty block the stream Header ++ data, cut in any way that obeys the
      requests, leaves the receiver with the sent list and size and the digest of the data
      after whatever the hasher held before; download returns false exactly at the last
      fragment. */
  lemma TransferRoundTrip(sha: Digest, r: Receiver, chunks: seq<seq<byte>>, list: seq<Hash>, data: seq<byte>)
    requires |list| < WORD32 && 0 < |data| < WORD32
    requires Sound(r) && r.phase == NbHash && Obeys(sha, r, chunks)
    requires Concat(chunks) == Header(list, |data|) + data
    ensures Received(sha, Feed(sha, r, chunks), list, r.fed, data)
  {
    assert Header(list, |data|) + data + [] == Header(list, |data|) + data;
    ExtraIsCut(sha, r, chunks, list, data, []);
  }

  /** On any shorter run of fragments the receiver is still waiting. */
  lemma {:induction false} WaitingUntilLast(sha: Digest, r: Receiver, chunks: seq<seq<byte>>, count: nat)
    requires Sound(r) && Obeys(sha, r, chunks) && count < |chunks|
    requires Feed(sha, r, chunks).Finished? && Feed(sha, r, chunks).unread == []
    ensures Obeys(sha, r, chunks[..count]) && Feed(sha, r, chunks[..count]).Waiting?
    decreases count
  {
    if count > 0 {
      var a := Step(sha, r, chunks[0]);
      WaitingUntilLast(sha, a.next, chunks[1..], count - 1);
      assert chunks[..count][1..] == chunks[1..][..count - 1];
    }
  }

  /** What download asks for: four bytes for a number, twenty for a hash, and whatever comes
      for data; nothing once it returns false. */
  lemma Requests(sha: Digest, r: Receiver, buffer: seq<byte>)
    requires Sound(r) && SizeAsserted(r, |buffer|)
    ensures var a := Step(sha, r, buffer);
            && (a.more <==> !(r.phase == Data && r.readBytes + |buffer| >= r.size))
            && (a.more ==> a.toRead == if a.next.phase == Data then 0 else if a.next.phase == HashList then 20 else 4)
            && (!a.more ==> a.toRead == 0 && a.next.phase == NewlyCreated)
  {
  }

  /** A Block starts over with its counters reset, and keeps its hasher, list and hash. */
  lemma StartsOver(sha: Digest, r: Receiver)
    requires r.phase == NewlyCreated
    ensures var r' := Step(sha, r, []).next;
            && r'.phase == NbHash && r'.size == 0 && r'.readHashes == 0 && r'.readBytes == 0
            && r'.hashList == r.hashList && r'.fed == r.fed && r'.hash == r.hash
  {
  }

  lemma DigestOfMore(sha: Digest, before: seq<byte>, data: seq<byte>)
    ensures sha(before + data) == sha(data) <==> before == [] || Collides(sha, (before + data, data))
  {
    assert before != [] ==> |before + data| != |data|;
    assert before == [] ==> before + data == data;
  }

  /** Because init keeps the hasher, a Block hashes what earlier transfers fed it as well: a
      transfer ends with the digest of its data iff the hasher had been fed nothing before,
      or the digest collides. */
  lemma ReusedHasher(sha: Digest, r: Receiver, chunks: seq<seq<byte>>, list: seq<Hash>, data: seq<byte>)
    requires |list| < WORD32 && 0 < |data| < WORD32
    requires Sound(r) && r.phase == NbHash && Obeys(sha, r, chunks)
    requires Concat(chunks) == Header(list, |data|) + data
    ensures Feed(sha, r, chunks).state.hash == Some(sha(data))
       <==> r.fed == [] || Collides(sha, (r.fed + data, data))
  {
    TransferRoundTrip(sha, r, chunks, list, data);
    DigestOfMore(sha, r.fed, data);
  }

  /** Two transfers through one Block: the second ends with the digest of both blocks' data. */
  lemma SecondTransfer(sha: Digest, r: Receiver, first: seq<seq<byte>>, second: seq<seq<byte>>,
                       list1: seq<Hash>, data1: seq<byte>, list2: seq<Hash>, data2: seq<byte>)
    requires |list1| < WORD32 && 0 < |data1| < WORD32 && |list2| < WORD32 && 0 < |data2| < WORD32
    requires Sound(r) && r.phase == NbHash && Obeys(sha, r, first)
    requires Concat(first) == Header(list1, |data1|) + data1
    requires Feed(sha, r, first).state.phase == NewlyCreated
    requires Obeys(sha, Step(sha, Feed(sha, r, first).state, []).next, second)
    requires Concat(second) == Header(list2, |data2|) + data2
    ensures Feed(sha, Step(sha, Feed(sha, r, first).state, []).next, second).state.hash
         == Some(sha(r.fed + data1 + data2))
  {
    TransferRoundTrip(sha, r, first, list1, data1);
    var again := Step(sha, Feed(sha, r, first).state, []).next;
    TransferRoundTrip(sha, again, second, list2, data2);
  }

  lemma OneChunkLeft(chunks: seq<seq<byte>>, head: seq<byte>)
    requires chunks != [] && chunks[0] != [] && Concat(chunks) == head && |chunks[0]| == |head|
    ensures chunks[0] == head && Concat(chunks[1..]) == []
  {
    assert head == head + [];
    FirstChunk(chunks, head, []);
  }

  lemma NothingLeft(chunks: seq<seq<byte>>)
    requires Concat(chunks) == [] && (chunks == [] || chunks[0] != [])
    ensures chunks == []
  {
  }

  /** After an empty block's size nothing is left to feed, and the receiver wants data. */
  lemma EmptySizeWaits(sha: Digest, r: Receiver, chunks: seq<seq<byte>>)
    requires Sound(r) && Obeys(sha, r, chunks) && r.phase == Size && Concat(chunks) == BigEndian32(0)
    ensures Feed(sha, r, chunks) == Waiting(r.(phase := Data, size := 0))
  {
    assert chunks != [];
    OneChunkLeft(chunks, BigEndian32(0));
    BigEndian32RoundTrip(0);
    var a := Step(sha, r, chunks[0]);
    NothingLeft(chunks[1..]);
    assert Feed(sha, a.next, chunks[1..]) == Waiting(a.next);
  }

  lemma {:induction false} EmptyHashesWait(sha: Digest, r: Receiver, chunks: seq<seq<byte>>, list: seq<Hash>)
    requires Sound(r) && Obeys(sha, r, chunks) && r.phase == HashList && |r.hashList| == |list|
    requires Concat(chunks) == ConcatHashes(list[r.readHashes..]) + BigEndian32(0)
    ensures Feed(sha, r, chunks).Waiting? && Feed(sha, r, chunks).state.phase == Data
    ensures Feed(sha, r, chunks).state.hash == r.hash
    decreases |chunks|
  {
    var k, tail := r.readHashes, BigEndian32(0);
    assert list[k..][1..] == list[k + 1..];
    assert ConcatHashes(list[k..]) + tail == list[k] + (ConcatHashes(list[k + 1..]) + tail);
    FirstChunk(chunks, list[k], ConcatHashes(list[k + 1..]) + tail);
    var a := Step(sha, r, chunks[0]);
    if k + 1 == |list| {
      assert ConcatHashes(list[k + 1..]) + tail == tail;
      EmptySizeWaits(sha, a.next, chunks[1..]);
    } else {
      EmptyHashesWait(sha, a.next, chunks[1..], list);
    }
  }

  /** An empty block is never finished by its own stream: with any hash list and in any
      fragments, the receiver still waits for data and reports no new hash. */
  lemma EmptyBlockWaits(sha: Digest, r: Receiver, chunks: seq<seq<byte>>, list: seq<Hash>)
    requires |list| < WORD32
    requires Sound(r) && r.phase == NbHash && Obeys(sha, r, chunks) && Concat(chunks) == Header(list, 0)
    ensures Feed(sha, r, chunks).Waiting? && Feed(sha, r, chunks).state.phase == Data
    ensures Feed(sha, r, chunks).state.hash == r.hash
  {
    var tail := BigEndian32(0);
    HeaderThenData(list, []);
    assert Header(list, 0) + [] == Header(list, 0) && tail + [] == tail;
    FirstChunk(chunks, BigEndian32(|list|), ConcatHashes(list) + tail);
    BigEndian32RoundTrip(|list|);
    var a := Step(sha, r, chunks[0]);
    assert list[0..] == list;
    if list == [] {
      assert ConcatHashes(list) + tail == tail;
      EmptySizeWaits(sha, a.next, chunks[1..]);
    } else {
      EmptyHashesWait(sha, a.next, chunks[1..], list);
    }
  }
}
