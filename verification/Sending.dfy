/** The uploading side of a peer (Peer.cpp): the block header and the chunks of the file. */
module Sending {
  import opened Hashes
  import opened Endian
  import opened Blocks
  import opened FileFormat
  import opened CompleteFiles

  /** on_write's buffer. */
  const CHUNK_SIZE: nat := 500_000

  method CopyHash(buffer: array<byte>, at: nat, h: Hash)
    requires at + HASH_SIZE <= buffer.Length
    modifies buffer
    ensures buffer[..] == old(buffer[..at]) + h + old(buffer[at + HASH_SIZE..])
  {
    forall j | 0 <= j < HASH_SIZE {
      buffer[at + j] := h[j];
    }
  }

  lemma {:induction false} ConcatHashesSize(list: seq<Hash>)
    ensures |ConcatHashes(list)| == HASH_SIZE * |list|
  {
    if list != [] {
      ConcatHashesSize(list[1..]);
    }
  }

  lemma {:induction false} ConcatHashesSnoc(list: seq<Hash>, k: nat)
    requires k < |list|
    ensures ConcatHashes(list[..k + 1]) == ConcatHashes(list[..k]) + list[k]
  {
    if k > 0 {
      ConcatHashesSnoc(list[1..], k - 1);
      assert list[..k + 1][1..] == list[1..][..k] && list[..k][1..] == list[1..][..k - 1];
    } else {
      assert list[..1] == [list[0]] && list[..0] == [] && ConcatHashes([]) == [];
      assert list[..1][1..] == [];
    }
  }

  /** The header sendBlock builds by moving a pointer through a buffer. */
  method BuildHeader(list: seq<Hash>, size: nat) returns (buffer: array<byte>)
    ensures fresh(buffer) && buffer[..] == Header(list, size)
  {
    ConcatHashesSize(list);
    buffer := new byte[4 + HASH_SIZE * |list| + 4](_ => 0);
    var word := BigEndian32(Truncated(|list|));
    forall j | 0 <= j < 4 {
      buffer[j] := word[j];
    }
    var b: nat := 4;
    assert buffer[..4] == word + ConcatHashes(list[..0]);
    for i := 0 to |list|
      invariant b == 4 + HASH_SIZE * i && buffer.Length == 8 + HASH_SIZE * |list|
      invariant buffer[..b] == word + ConcatHashes(list[..i])
    {
      ConcatHashesSnoc(list, i);
      ghost var before := buffer[..b];
      CopyHash(buffer, b, list[i]);
      b := b + HASH_SIZE;
      assert buffer[..b] == before + list[i];
    }
    assert list[..|list|] == list;
    ghost var before := buffer[..b];
    var last := BigEndian32(Truncated(size));
    forall j | 0 <= j < 4 {
      buffer[b + j] := last[j];
    }
    assert buffer[..] == before + last;
  }

  /** One on_write: what it reads at `start`, or nothing when it is done. A read that meets
      the end of the file leaves the stream failed, and tellg then compares as past `end`. */
  function NextChunk(content: seq<byte>, start: nat, end: nat, failed: bool): Option<seq<byte>>
    requires start <= |content|
  {
    if failed || start >= end then None
    else Some(content[start..if start + CHUNK_SIZE <= |content| then start + CHUNK_SIZE else |content|])
  }

  /** The chunks of the whole chain of on_write callbacks. */
  function Chunks(content: seq<byte>, start: nat, end: nat, failed: bool): seq<seq<byte>>
    requires start <= |content|
    decreases !failed, |content| - start
  {
    match NextChunk(content, start, end, failed)
    case None => []
    case Some(chunk) => [chunk] + Chunks(content, start + |chunk|, end, start + CHUNK_SIZE > |content|)
  }

  lemma WholeChunks(d: nat)
    requires d > 0 && d % CHUNK_SIZE == 0
    ensures d >= CHUNK_SIZE && (d - CHUNK_SIZE) % CHUNK_SIZE == 0
  {
    var q := d / CHUNK_SIZE;
    assert d == CHUNK_SIZE * q;
  }

  /** The chunks are exactly content[start..end) when `end` is the end of the file or a whole
      number of chunks away; nothing past `end` is sent. */
  lemma {:induction false} ChunksConcatenate(content: seq<byte>, start: nat, end: nat)
    requires start <= end <= |content|
    requires end == |content| || (end - start) % CHUNK_SIZE == 0
    ensures Concat(Chunks(content, start, end, false)) == content[start..end]
    decreases end - start
  {
    if start < end {
      var next := if start + CHUNK_SIZE <= |content| then start + CHUNK_SIZE else |content|;
      var chunk, failed := content[start..next], start + CHUNK_SIZE > |content|;
      var rest := Chunks(content, next, end, failed);
      assert Chunks(content, start, end, false)[1..] == rest;
      if (end - start) % CHUNK_SIZE == 0 {
        WholeChunks(end - start);
      }
      if failed {
        assert rest == [] && Concat(rest) == [];
      } else {
        ChunksConcatenate(content, next, end);
      }
      assert next <= end;
      JoinSlices(content, start, next, end);
    }
  }

  /** Every chunk but the last has 500 kB, and the last no more and at least a byte. */
  lemma {:induction false} ChunkSizes(content: seq<byte>, start: nat, end: nat, k: nat)
    requires start <= end <= |content| && k < |Chunks(content, start, end, false)|
    ensures var chunks := Chunks(content, start, end, false);
            && 0 < |chunks[k]| <= 500_000 && (k + 1 < |chunks| ==> |chunks[k]| == 500_000)
    decreases k
  {
    var next := if start + CHUNK_SIZE <= |content| then start + CHUNK_SIZE else |content|;
    var rest := Chunks(content, next, end, start + CHUNK_SIZE > |content|);
    assert Chunks(content, start, end, false)[1..] == rest;
    if k > 0 && next <= end {
      ChunkSizes(content, next, end, k - 1);
    }
  }

  /** A range that ends inside a chunk, before the end of the file, is overshot. */
  lemma {:induction false} UnalignedEndOvershoots(content: seq<byte>, start: nat, end: nat)
    requires start <= end < |content| && (end - start) % CHUNK_SIZE != 0
    ensures |Concat(Chunks(content, start, end, false))| > end - start
    decreases end - start
  {
    var next := if start + CHUNK_SIZE <= |content| then start + CHUNK_SIZE else |content|;
    var rest := Chunks(content, next, end, start + CHUNK_SIZE > |content|);
    assert Chunks(content, start, end, false)[1..] == rest;
    if next < end {
      UnalignedEndOvershoots(content, next, end);
    }
  }

  /** Exactly the range is sent iff it ends with the file or after whole chunks. */
  lemma ChunksExactIffAligned(content: seq<byte>, start: nat, end: nat)
    requires start <= end <= |content|
    ensures Concat(Chunks(content, start, end, false)) == content[start..end]
       <==> end == |content| || (end - start) % CHUNK_SIZE == 0
  {
    if end == |content| || (end - start) % CHUNK_SIZE == 0 {
      ChunksConcatenate(content, start, end);
    } else {
      UnalignedEndOvershoots(content, start, end);
    }
  }

  // ---- Which bytes block b's upload sends

  /** block * BLOCK_SIZE, computed in 32 bits. */
  function StartIndex(block: uint32): nat {
    block * BLOCK_SIZE % WORD32
  }

  function EndIndex(content: seq<byte>, block: uint32): nat {
    var end := StartIndex(block) + BLOCK_SIZE;
    if end <= |content| then end else |content|
  }

  function SentData(content: seq<byte>, block: uint32): seq<byte>
    requires StartIndex(block) < |content|
  {
    Concat(Chunks(content, StartIndex(block), EndIndex(content, block), false))
  }

  lemma SentIsRange(content: seq<byte>, block: uint32)
    requires StartIndex(block) < |content|
    ensures SentData(content, block) == content[StartIndex(block)..EndIndex(content, block)]
    ensures 0 < |SentData(content, block)| <= BLOCK_SIZE
  {
    ChunksConcatenate(content, StartIndex(block), EndIndex(content, block));
  }

  /** Zero everywhere but at one place. */
  function Marked(size: nat, at: nat): (s: seq<byte>)
    ensures |s| == size
  {
    seq(size, i => if i == at then 1 else 0)
  }

  predicate SendsItsBlock(content: seq<byte>, block: uint32)
    requires StartIndex(block) < |content|
  {
    SentData(content, block) == BlockOf(content, block)
  }

  /** An upload sends the bytes of the block asked for, in every file that has that block,
      iff its start fits 32 bits: up to block 268. */
  lemma SendsItsBlockIffStartFits(block: uint32)
    ensures (forall content: seq<byte> | StartIndex(block) < |content| && block * BLOCK_SIZE < |content| ::
               SendsItsBlock(content, block)) <==> block <= 268
  {
    if block <= 268 {
      forall content: seq<byte> | StartIndex(block) < |content| && block * BLOCK_SIZE < |content|
        ensures SendsItsBlock(content, block)
      {
        SentIsRange(content, block);
      }
    } else {
      var content := Marked((block + 1) * BLOCK_SIZE, StartIndex(block));
      SentIsRange(content, block);
      assert SentData(content, block)[0] == 1;
      assert BlockOf(content, block)[0] == content[block * BLOCK_SIZE] == 0;
      assert !SendsItsBlock(content, block);
    }
  }
}
