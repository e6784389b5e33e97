/** The byte form of a stored file: size, packed block states, then every node of the tree
    level by level, a null node as twenty zero bytes (File.cpp, serialize and the byte
    constructor). */
module FileFormat {
  import opened Hashes
  import opened Endian
  import opened Merkle

  const BLOCK_SIZE: nat := 16_000_000
  const SIZE_BYTES: nat := 8

  /** Blocks of a file: its size divided by the block size, rounded up, and at least one. */
  function BlockCount(filesize: nat): (n: nat)
    ensures n >= 1
    ensures (n - 1) * BLOCK_SIZE < filesize <= n * BLOCK_SIZE || (filesize == 0 && n == 1)
  {
    if filesize == 0 then 1 else (filesize + BLOCK_SIZE - 1) / BLOCK_SIZE
  }

  datatype Stored = Stored(filesize: nat, blocks: seq<bool>, tree: Tree)

  predicate WellFormed(f: Stored) {
    f.filesize < WORD64 && |f.blocks| == BlockCount(f.filesize) && Shaped(f.tree, |f.blocks|)
  }

  // ---- Bits of the block states

  /** x & (1 << j) != 0 */
  predicate TestBit(x: nat, j: nat) {
    if j == 0 then x % 2 == 1 else TestBit(x / 2, j - 1)
  }

  /** x | (1 << j) */
  function OrBit(x: nat, j: nat): nat {
    if j == 0 then x / 2 * 2 + 1 else OrBit(x / 2, j - 1) * 2 + x % 2
  }

  lemma {:induction false} OrBitFits(x: nat, j: nat, width: nat)
    requires j < width && x < Pow2(width)
    ensures OrBit(x, j) < Pow2(width)
  {
    if j > 0 {
      OrBitFits(x / 2, j - 1, width - 1);
    }
  }

  function SetBit(x: byte, j: nat): byte
    requires j < 8
  {
    assert Pow2(8) == 256 by { assert Pow2(4) == 16; }
    OrBitFits(x, j, 8);
    OrBit(x, j)
  }

  lemma {:induction false} OrBitTest(x: nat, j: nat, k: nat)
    ensures TestBit(OrBit(x, j), k) <==> j == k || TestBit(x, k)
  {
    if j > 0 && k > 0 {
      OrBitTest(x / 2, j - 1, k - 1);
    }
  }

  lemma {:induction false} NoBitOfZero(k: nat)
    ensures !TestBit(0, k)
  {
    if k > 0 {
      NoBitOfZero(k - 1);
    }
  }

  function StateBytes(n: nat): nat {
    if n == 0 then 1 else (n + 7) / 8
  }

  /** The packed bytes after the first `count` blocks have been visited. */
  function Packed(blocks: seq<bool>, count: nat): (s: seq<byte>)
    requires count <= |blocks|
    ensures |s| == StateBytes(|blocks|)
  {
    if count == 0 then seq(StateBytes(|blocks|), _ => 0)
    else
      var s, i := Packed(blocks, count - 1), count - 1;
      if blocks[i] then s[i / 8 := SetBit(s[i / 8], i % 8)] else s
  }

  function Unpacked(s: seq<byte>, n: nat): (blocks: seq<bool>)
    requires |s| >= StateBytes(n)
    ensures |blocks| == n
  {
    seq(n, i requires 0 <= i < n => TestBit(s[i / 8], i % 8))
  }

  lemma {:induction false} PackedBit(blocks: seq<bool>, count: nat, i: nat)
    requires i < |blocks| && count <= |blocks|
    ensures TestBit(Packed(blocks, count)[i / 8], i % 8) <==> i < count && blocks[i]
  {
    if count == 0 {
      NoBitOfZero(i % 8);
    } else {
      PackedBit(blocks, count - 1, i);
      var s, j := Packed(blocks, count - 1), count - 1;
      if i / 8 == j / 8 {
        OrBitTest(s[j / 8], j % 8, i % 8);
        assert i == j <==> i % 8 == j % 8;
      }
    }
  }

  lemma PackStatesRoundTrip(blocks: seq<bool>, extra: seq<byte>)
    ensures Unpacked(Packed(blocks, |blocks|) + extra, |blocks|) == blocks
  {
    forall i | 0 <= i < |blocks|
      ensures TestBit((Packed(blocks, |blocks|) + extra)[i / 8], i % 8) == blocks[i]
    {
      PackedBit(blocks, |blocks|, i);
    }
  }

  // ---- Nodes

  function EncodeSlot(s: Slot): (h: Hash) {
    if s.Some? then s.value else ZERO_HASH
  }

  function DecodeSlot(h: Hash): Slot {
    if h == ZERO_HASH then None else Some(h)
  }

  function EncodeLevel(level: Level): (s: seq<byte>)
    ensures |s| == HASH_SIZE * |level|
  {
    if level == [] then [] else EncodeSlot(level[0]) + EncodeLevel(level[1..])
  }

  function EncodeTree(t: Tree): seq<byte> {
    if t == [] then [] else EncodeLevel(t[0]) + EncodeTree(t[1..])
  }

  function Encode(f: Stored): seq<byte> {
    LittleEndian(f.filesize, SIZE_BYTES) + Packed(f.blocks, |f.blocks|) + EncodeTree(f.tree)
  }

  function ReadLevel(n: nat, s: seq<byte>): (r: Result<Level>)
    ensures r.Ok? ==> |r.value| == n && HASH_SIZE * n <= |s|
  {
    if n == 0 then Ok([])
    else if |s| < HASH_SIZE then Err
    else
      var rest := ReadLevel(n - 1, s[HASH_SIZE..]);
      if rest.Err? then Err else Ok([DecodeSlot(s[..HASH_SIZE])] + rest.value)
  }

  /** Read the levels of a tree over n blocks; Err stands for UnserializeException. */
  function ReadTree(n: nat, s: seq<byte>): Result<Tree>
    requires n >= 1
    decreases n
  {
    var level := ReadLevel(n, s);
    if level.Err? then Err
    else if n == 1 then Ok([level.value])
    else
      var above := ReadTree(Up(n), s[HASH_SIZE * n..]);
      if above.Err? then Err else Ok([level.value] + above.value)
  }

  /** The part the byte constructor reads without looking at the given size. */
  predicate HeaderReadable(s: seq<byte>) {
    |s| >= SIZE_BYTES
    && |s| >= SIZE_BYTES + StateBytes(BlockCount(FromLittleEndian(s[..SIZE_BYTES])))
  }

  function Decode(s: seq<byte>): Result<Stored>
    requires HeaderReadable(s)
  {
    var filesize := FromLittleEndian(s[..SIZE_BYTES]);
    var n := BlockCount(filesize);
    var tree := ReadTree(n, s[SIZE_BYTES + StateBytes(n)..]);
    if tree.Err? then Err else Ok(Stored(filesize, Unpacked(s[SIZE_BYTES..], n), tree.value))
  }

  // ---- Sizes

  /** Nodes of a tree over n blocks. */
  function NodeCount(n: nat): nat {
    if n <= 1 then n else n + NodeCount(Up(n))
  }

  /** Levels of odd width above one: each promotes one orphan. */
  function OrphanLevels(n: nat): nat {
    if n <= 1 then 0 else n % 2 + OrphanLevels(Up(n))
  }

  function SerializedSize(n: nat): nat {
    SIZE_BYTES + (n + 7) / 8 + HASH_SIZE * NodeCount(n)
  }

  lemma HalvedUp(n: nat)
    ensures 2 * Up(n) == n + n % 2
  {
  }

  lemma {:induction false} NodesAreLeavesJoinsAndOrphans(t: Tree, n: nat)
    requires Shaped(t, n)
    ensures NodeCount(n) == 2 * n - 1 + OrphanLevels(n)
    ensures OrphanLevels(n) <= |t| - 1
    decreases n
  {
    if n > 1 {
      NodesAreLeavesJoinsAndOrphans(t[1..], Up(n));
      HalvedUp(n);
    }
  }

  lemma {:induction false} EncodedTreeSize(t: Tree, n: nat)
    requires Shaped(t, n)
    ensures |EncodeTree(t)| == HASH_SIZE * NodeCount(n)
    decreases |t|
  {
    if n > 1 {
      EncodedTreeSize(t[1..], Up(n));
    } else {
      assert EncodeTree(t[1..]) == [];
    }
  }

  lemma EncodedSize(f: Stored)
    requires WellFormed(f)
    ensures |Encode(f)| == SerializedSize(|f.blocks|)
  {
    EncodedTreeSize(f.tree, |f.blocks|);
  }

  lemma {:induction false} ReadLevelSucceeds(n: nat, s: seq<byte>)
    ensures ReadLevel(n, s).Ok? <==> |s| >= HASH_SIZE * n
  {
    if n > 0 && |s| >= HASH_SIZE {
      ReadLevelSucceeds(n - 1, s[HASH_SIZE..]);
    }
  }

  lemma {:induction false} ReadTreeSucceeds(n: nat, s: seq<byte>)
    requires n >= 1
    ensures ReadTree(n, s).Ok? <==> |s| >= HASH_SIZE * NodeCount(n)
    decreases n
  {
    ReadLevelSucceeds(n, s);
    if n > 1 && |s| >= HASH_SIZE * n {
      ReadTreeSucceeds(Up(n), s[HASH_SIZE * n..]);
    }
  }

  lemma {:induction false} ReadTreeShaped(n: nat, s: seq<byte>)
    requires n >= 1
    ensures ReadTree(n, s).Ok? ==> Shaped(ReadTree(n, s).value, n)
    decreases n
  {
    if n > 1 && ReadTree(n, s).Ok? {
      ReadTreeShaped(Up(n), s[HASH_SIZE * n..]);
      assert ReadTree(n, s).value[1..] == ReadTree(Up(n), s[HASH_SIZE * n..]).value;
    }
  }

  /** With a readable header the byte constructor throws iff the given size is below the
      serialized size of a file of that many blocks. */
  lemma ThrowsIffTooShort(s: seq<byte>)
    requires HeaderReadable(s)
    ensures Decode(s).Err? <==> |s| < SerializedSize(BlockCount(FromLittleEndian(s[..SIZE_BYTES])))
  {
    var n := BlockCount(FromLittleEndian(s[..SIZE_BYTES]));
    ReadTreeSucceeds(n, s[SIZE_BYTES + StateBytes(n)..]);
  }

  // ---- Where everything is

  lemma DivTwoAndMore(x: nat, p: nat)
    requires p >= 1
    ensures x / (2 * p) == x / 2 / p
  {
    var y := x / 2;
    var q, r := y / p, y % p;
    assert y == p * q + r;
    assert 2 * (p * q) == (2 * p) * q;
    QuotientUnique(x, 2 * p, q, 2 * r + x % 2);
  }

  lemma {:induction false} TestBitMeaning(x: nat, j: nat)
    ensures TestBit(x, j) <==> x / Pow2(j) % 2 == 1
  {
    if j > 0 {
      TestBitMeaning(x / 2, j - 1);
      DivTwoAndMore(x, Pow2(j - 1));
    }
  }

  /** The size comes first, lowest byte first; then bit b % 8 of byte b / 8 tells whether
      block b is there. */
  lemma StoredLayout(f: Stored)
    requires WellFormed(f)
    ensures var s := Encode(f);
            && |s| >= 8 + StateBytes(|f.blocks|)
            && (forall i :: 0 <= i < 8 ==> s[i] == f.filesize / Limit(i) % 256)
            && forall b :: 0 <= b < |f.blocks| ==> (s[8 + b / 8] / Pow2(b % 8) % 2 == 1 <==> f.blocks[b])
  {
    var s, n := Encode(f), |f.blocks|;
    forall i | 0 <= i < 8 ensures s[i] == f.filesize / Limit(i) % 256 {
      LittleEndianDigit(f.filesize, 8, i);
      assert s[i] == LittleEndian(f.filesize, SIZE_BYTES)[i];
    }
    forall b | 0 <= b < n ensures s[8 + b / 8] / Pow2(b % 8) % 2 == 1 <==> f.blocks[b] {
      PackedBit(f.blocks, n, b);
      TestBitMeaning(s[8 + b / 8], b % 8);
      assert s[8 + b / 8] == Packed(f.blocks, n)[b / 8];
    }
  }

  /** Nodes of the levels below level k. */
  function NodesBelow(t: Tree, k: nat): nat
    requires k <= |t|
  {
    if k == 0 then 0 else |t[0]| + NodesBelow(t[1..], k - 1)
  }

  /** The i-th twenty bytes. */
  function HashAt(s: seq<byte>, i: nat): (h: Hash)
    requires 20 * i + 20 <= |s|
  {
    s[20 * i..20 * i + 20]
  }

  lemma HashOfTail(a: seq<byte>, b: seq<byte>, n: nat, i: nat)
    requires |a| == 20 * n && 20 * i + 20 <= |b|
    ensures 20 * (n + i) + 20 <= |a + b| && HashAt(a + b, n + i) == HashAt(b, i)
  {
    SliceOfTail(a, b, 20 * i, 20);
  }

  lemma HashOfHead(a: seq<byte>, b: seq<byte>, i: nat)
    requires 20 * i + 20 <= |a|
    ensures 20 * i + 20 <= |a + b| && HashAt(a + b, i) == HashAt(a, i)
  {
    SliceOfHead(a, b, 20 * i, 20);
  }

  lemma {:induction false} SlotPlace(level: Level, i: nat)
    requires i < |level|
    ensures 20 * i + 20 <= |EncodeLevel(level)| && HashAt(EncodeLevel(level), i) == EncodeSlot(level[i])
  {
    var head, rest := EncodeSlot(level[0]), EncodeLevel(level[1..]);
    if i > 0 {
      SlotPlace(level[1..], i - 1);
      HashOfTail(head, rest, 1, i - 1);
    } else {
      HashOfHead(head, rest, 0);
    }
  }

  /** The i-th hash of the nodes' bytes is h. */
  predicate HoldsAt(s: seq<byte>, i: nat, h: Hash) {
    20 * i + 20 <= |s| && HashAt(s, i) == h
  }

  lemma HoldsInTail(a: seq<byte>, b: seq<byte>, n: nat, i: nat, h: Hash)
    requires |a| == 20 * n && HoldsAt(b, i, h)
    ensures HoldsAt(a + b, n + i, h)
  {
    HashOfTail(a, b, n, i);
  }

  lemma HoldsInHead(a: seq<byte>, b: seq<byte>, i: nat, h: Hash)
    requires HoldsAt(a, i, h)
    ensures HoldsAt(a + b, i, h)
  {
    HashOfHead(a, b, i);
  }

  lemma {:induction false} TreePlace(t: Tree, k: nat, i: nat)
    requires k < |t| && i < |t[k]|
    ensures HoldsAt(EncodeTree(t), NodesBelow(t, k) + i, EncodeSlot(t[k][i]))
    decreases k
  {
    if k == 0 {
      SlotPlace(t[0], i);
      HoldsInHead(EncodeLevel(t[0]), EncodeTree(t[1..]), i, EncodeSlot(t[0][i]));
    } else {
      TreePlace(t[1..], k - 1, i);
      assert t[1..][k - 1] == t[k];
      HoldsInTail(EncodeLevel(t[0]), EncodeTree(t[1..]), |t[0]|, NodesBelow(t[1..], k - 1) + i, EncodeSlot(t[k][i]));
    }
  }

  /** After them the nodes, level by level from the leaves: node i of level k in 20 bytes, all
      zero if it is null. */
  lemma NodeLayout(f: Stored, k: nat, i: nat)
    requires k < |f.tree| && i < |f.tree[k]|
    ensures var nodes := 8 + StateBytes(|f.blocks|);
            && nodes <= |Encode(f)|
            && HoldsAt(Encode(f)[nodes..], NodesBelow(f.tree, k) + i,
                       if f.tree[k][i].Some? then f.tree[k][i].value else seq(20, _ => 0))
  {
    TreePlace(f.tree, k, i);
    EncodedParts(LittleEndian(f.filesize, SIZE_BYTES), Packed(f.blocks, |f.blocks|), EncodeTree(f.tree));
    assert ZERO_HASH == seq(20, _ => 0);
  }

  // ---- Round trip

  /** A known all-zero hash reads back as null. */
  function Blanked(s: Slot): Slot {
    if s == Some(ZERO_HASH) then None else s
  }

  function BlankedLevel(level: Level): (r: Level)
    ensures |r| == |level|
  {
    seq(|level|, i requires 0 <= i < |level| => Blanked(level[i]))
  }

  function BlankedTree(t: Tree): (r: Tree)
    ensures |r| == |t|
  {
    seq(|t|, k requires 0 <= k < |t| => BlankedLevel(t[k]))
  }

  predicate NoZeroHash(t: Tree) {
    forall k, i :: 0 <= k < |t| && 0 <= i < |t[k]| ==> t[k][i] != Some(ZERO_HASH)
  }

  lemma ReadLevelHead(n: nat, h: Hash, rest: seq<byte>)
    requires ReadLevel(n, rest).Ok?
    ensures ReadLevel(n + 1, h + rest) == Ok([DecodeSlot(h)] + ReadLevel(n, rest).value)
  {
    assert (h + rest)[..HASH_SIZE] == h && (h + rest)[HASH_SIZE..] == rest;
  }

  lemma {:induction false} ReadLevelInverts(level: Level, extra: seq<byte>)
    ensures ReadLevel(|level|, EncodeLevel(level) + extra) == Ok(BlankedLevel(level))
    decreases |level|
  {
    if level != [] {
      var rest := EncodeLevel(level[1..]) + extra;
      assert EncodeLevel(level) + extra == EncodeSlot(level[0]) + rest;
      ReadLevelInverts(level[1..], extra);
      ReadLevelHead(|level| - 1, EncodeSlot(level[0]), rest);
      assert [Blanked(level[0])] + BlankedLevel(level[1..]) == BlankedLevel(level);
    }
  }

  lemma ReadTreeHead(n: nat, level: Level, lower: seq<byte>, upper: seq<byte>, above: Tree)
    requires n > 1 && |lower| == HASH_SIZE * n && ReadLevel(n, lower + upper) == Ok(level)
    requires ReadTree(Up(n), upper) == Ok(above)
    ensures ReadTree(n, lower + upper) == Ok([level] + above)
  {
    assert (lower + upper)[HASH_SIZE * n..] == upper;
  }

  lemma BlankedHead(level: Level, above: Tree)
    ensures BlankedTree([level] + above) == [BlankedLevel(level)] + BlankedTree(above)
  {
  }

  lemma {:induction false} ReadTreeInverts(t: Tree, n: nat)
    requires Shaped(t, n)
    ensures ReadTree(n, EncodeTree(t)) == Ok(BlankedTree(t))
    decreases |t|
  {
    var level, above := EncodeLevel(t[0]), EncodeTree(t[1..]);
    ReadLevelInverts(t[0], above);
    if n > 1 {
      assert t == [t[0]] + t[1..];
      BlankedHead(t[0], t[1..]);
      ReadTreeInverts(t[1..], Up(n));
      ReadTreeHead(n, BlankedLevel(t[0]), level, above, BlankedTree(t[1..]));
    } else {
      assert [BlankedLevel(t[0])] == BlankedTree(t);
    }
  }

  /** Reading back what serialize wrote restores the size and the block states, and every
      node but a known all-zero hash, which becomes null. So the file itself comes back iff
      its tree holds no all-zero hash. */
  lemma SerializeRoundTrip(f: Stored)
    requires WellFormed(f)
    ensures HeaderReadable(Encode(f))
    ensures Decode(Encode(f)) == Ok(f.(tree := BlankedTree(f.tree)))
    ensures Decode(Encode(f)) == Ok(f) <==> NoZeroHash(f.tree)
  {
    var n, s := |f.blocks|, Encode(f);
    var packed, nodes := Packed(f.blocks, n), EncodeTree(f.tree);
    LittleEndian64RoundTrip(f.filesize);
    EncodedParts(LittleEndian(f.filesize, SIZE_BYTES), packed, nodes);
    PackStatesRoundTrip(f.blocks, nodes);
    ReadTreeInverts(f.tree, n);
    BlankedIffZero(f.tree);
  }

  lemma EncodedParts(size: seq<byte>, packed: seq<byte>, nodes: seq<byte>)
    ensures (size + packed + nodes)[..|size|] == size
    ensures (size + packed + nodes)[|size|..] == packed + nodes
    ensures (size + packed + nodes)[|size| + |packed|..] == nodes
  {
  }

  lemma BlankedIffZero(t: Tree)
    ensures BlankedTree(t) == t <==> NoZeroHash(t)
  {
    if NoZeroHash(t) {
      forall k | 0 <= k < |t| ensures BlankedLevel(t[k]) == t[k] {
      }
    } else {
      var k, i :| 0 <= k < |t| && 0 <= i < |t[k]| && t[k][i] == Some(ZERO_HASH);
      assert BlankedTree(t)[k][i] == None;
    }
  }
}
