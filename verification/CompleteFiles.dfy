/** Hashing a whole file on disk (CompleteFile.cpp): blocks are fed to one hasher through
    reads of at most 1 MB, and each block's digest fills the tree with setHash. */
module CompleteFiles {
  import opened Hashes
  import opened Merkle
  import opened PartialTree
  import opened BlockProof
  import opened FileFormat
  import opened Files
  import opened Downloads

  const READ_SIZE: nat := 1_000_000

  /** An incremental hasher; `fed` is what update has received since the last reset. */
  class Hasher {
    const sha: Digest
    var fed: seq<byte>

    constructor (sha: Digest)
      ensures this.sha == sha && fed == []
    {
      this.sha := sha;
      fed := [];
    }

    method Reset()
      modifies this
      ensures fed == []
    {
      fed := [];
    }

    method Update(data: seq<byte>)
      modifies this
      ensures fed == old(fed) + data
    {
      fed := fed + data;
    }

    method GetHash() returns (h: Hash)
      ensures h == sha(fed)
    {
      h := sha(fed);
    }
  }

  /** A binary input stream: a read that meets the end of the file sets eof and delivers
      what was left. */
  class Input {
    const content: seq<byte>
    var pos: nat
    var eof: bool

    constructor (content: seq<byte>)
      ensures this.content == content && pos == 0 && !eof
    {
      this.content := content;
      pos, eof := 0, false;
    }

    method Read(max: nat) returns (chunk: seq<byte>)
      requires pos <= |content|
      modifies this
      ensures old(pos) <= pos <= |content| && chunk == content[old(pos)..pos] && |chunk| <= max
      ensures !old(eof) ==> (eof <==> |chunk| < max) && (eof ==> pos == |content|)
      ensures old(eof) ==> eof && chunk == []
    {
      if eof {
        chunk := [];
      } else {
        var end := if pos + max <= |content| then pos + max else |content|;
        chunk := content[pos..end];
        eof := pos + max > |content|;
        pos := end;
      }
    }
  }

  /** Start of block i, or the end of the file when it comes first. */
  function Boundary(content: seq<byte>, i: nat): (at: nat)
    ensures at <= |content|
  {
    if i * BLOCK_SIZE <= |content| then i * BLOCK_SIZE else |content|
  }

  function BlockOf(content: seq<byte>, i: nat): seq<byte> {
    content[Boundary(content, i)..Boundary(content, i + 1)]
  }

  function Concatenated(content: seq<byte>, count: nat): seq<byte> {
    if count == 0 then [] else Concatenated(content, count - 1) + BlockOf(content, count - 1)
  }

  lemma {:induction false} ConcatenatedIsPrefix(content: seq<byte>, count: nat)
    ensures Concatenated(content, count) == content[..Boundary(content, count)]
  {
    if count > 0 {
      ConcatenatedIsPrefix(content, count - 1);
    }
  }

  /** Every byte lies in exactly one block: the blocks in order are the content. */
  lemma BlocksCoverContent(content: seq<byte>)
    ensures Concatenated(content, BlockCount(|content|)) == content
    ensures forall i :: 0 <= i < BlockCount(|content|) ==> |BlockOf(content, i)| <= BLOCK_SIZE
    ensures content != [] ==> forall i :: 0 <= i < BlockCount(|content|) ==> |BlockOf(content, i)| > 0
  {
    ConcatenatedIsPrefix(content, BlockCount(|content|));
  }

  function BlockHash(sha: Digest, content: seq<byte>, i: nat): Hash {
    sha(BlockOf(content, i))
  }

  function LeafHashes(sha: Digest, content: seq<byte>): (leaves: seq<Hash>)
    ensures |leaves| == BlockCount(|content|)
  {
    seq(BlockCount(|content|), i requires 0 <= i < BlockCount(|content|) => BlockHash(sha, content, i))
  }

  lemma {:induction false} InitialIsNullTree(sha: Digest, n: nat)
    requires n >= 1
    ensures InitialTree(n, None) == TreeOf(sha, NullLevel(n))
    decreases n
  {
    if n == 1 {
      assert NullLevel(1) == [None];
    } else {
      assert Grow(sha, NullLevel(n)) == NullLevel(Up(n));
      InitialIsNullTree(sha, Up(n));
    }
  }

  /** The leaves known after the first `count` blocks. */
  function KnownLeaves(leaves: seq<Hash>, count: nat): (level: Level)
    ensures |level| == |leaves|
  {
    seq(|leaves|, i requires 0 <= i < |leaves| => if i < count then Some(leaves[i]) else None)
  }

  lemma OneMoreLeaf(sha: Digest, leaves: seq<Hash>, i: nat)
    requires i < |leaves|
    ensures PartialTree.SetHash(sha, TreeOf(sha, KnownLeaves(leaves, i)), i, leaves[i])
         == TreeOf(sha, KnownLeaves(leaves, i + 1))
  {
    SetHashRebuilds(sha, KnownLeaves(leaves, i), i, leaves[i]);
    assert KnownLeaves(leaves, i)[i := Some(leaves[i])] == KnownLeaves(leaves, i + 1);
  }

  /** The inner loop: one block through the hasher. */
  method HashBlock(fh: Input, hasher: Hasher, i: nat)
    requires fh.pos == Boundary(fh.content, i) && !fh.eof && i < BlockCount(|fh.content|)
    modifies fh, hasher
    ensures hasher.fed == BlockOf(fh.content, i)
    ensures fh.pos == Boundary(fh.content, i + 1)
    ensures fh.eof ==> i + 1 == BlockCount(|fh.content|)
  {
    var toRead: nat := BLOCK_SIZE;
    hasher.Reset();
    while toRead > 0 && !fh.eof
      invariant toRead <= BLOCK_SIZE && fh.pos <= |fh.content|
      invariant fh.pos == i * BLOCK_SIZE + (BLOCK_SIZE - toRead)
      invariant hasher.fed == fh.content[i * BLOCK_SIZE..fh.pos]
      invariant fh.eof ==> fh.pos == |fh.content| && toRead > 0
      decreases !fh.eof, toRead
    {
      var chunk := fh.Read(if toRead < READ_SIZE then toRead else READ_SIZE);
      toRead := toRead - |chunk|;
      hasher.Update(chunk);
    }
  }

  method HashContent(f: File, fh: Input)
    requires f.Valid() && f.filesize == |fh.content| && fh.pos == 0 && !fh.eof
    requires f.tree == InitialTree(|f.blocks|, None)
    modifies f`tree, fh
    ensures f.tree == TreeOf(f.sha, Somes(LeafHashes(f.sha, fh.content)))
  {
    var hasher := new Hasher(f.sha);
    ghost var leaves, n := LeafHashes(f.sha, fh.content), |f.blocks|;
    InitialIsNullTree(f.sha, n);
    assert KnownLeaves(leaves, 0) == NullLevel(n);
    var i: nat := 0;
    while i < |f.blocks| && !fh.eof
      invariant 0 <= i <= n && f.Valid()
      invariant f.tree == TreeOf(f.sha, KnownLeaves(leaves, i))
      invariant fh.pos == Boundary(fh.content, i)
      invariant fh.eof ==> i == n
    {
      HashBlock(fh, hasher, i);
      var h := hasher.GetHash();
      assert h == leaves[i];
      OneMoreLeaf(f.sha, leaves, i);
      f.SetHash(i, h);
      i := i + 1;
    }
    assert KnownLeaves(leaves, n) == Somes(leaves);
  }

  /** A complete file: every block present and no null node, and its root is the Merkle
      hash of the content cut into blocks, for every content including the empty one. */
  method Open(sha: Digest, content: seq<byte>) returns (f: File)
    ensures fresh(f) && f.Valid() && f.sha == sha && f.filesize == |content|
    ensures f.tree == TreeOf(sha, Somes(LeafHashes(sha, content)))
    ensures Root(f.tree) == Some(TreeHash(sha, LeafHashes(sha, content)))
    ensures forall k :: 0 <= k < |f.tree| ==> AllSet(f.tree[k])
    ensures forall b :: 0 <= b < |f.blocks| ==> f.blocks[b]
  {
    f := new File(sha, |content|, None);
    var fh := new Input(content);
    HashContent(f, fh);
    f.blocks := seq(|f.blocks|, _ => true);
    ghost var leaves := LeafHashes(sha, content);
    RootIsTreeHash(sha, leaves);
    forall k | 0 <= k < |f.tree| ensures AllSet(f.tree[k]) {
      FullTreeHasNoNull(sha, Somes(leaves), k);
    }
  }
}
