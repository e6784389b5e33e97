/** A shared file: its hash tree and the blocks present (File.cpp), updated in place. */
module Files {
  import opened Hashes
  import opened Merkle
  import opened PartialTree
  import opened BlockProof
  import opened Endian
  import opened FileFormat

  /** The tree that initTree leaves: null everywhere but at the root. */
  function InitialTree(n: nat, root: Slot): (t: Tree)
    requires n >= 1
    ensures |t| >= 1 && Shaped(t, n)
    decreases n
  {
    if n == 1 then [[root]] else
      var above := InitialTree(Up(n), root);
      assert ([NullLevel(n)] + above)[1..] == above;
      [NullLevel(n)] + above
  }

  lemma Regroup(a: Tree, x: Level, b: Tree)
    ensures a + ([x] + b) == (a + [x]) + b
  {
  }

  lemma ParentFromChild(sha: Digest, level: Level, b: nat)
    requires b < |level|
    ensures Parent(sha, level, b / 2) ==
            if Sibling(b) >= |level| then level[b]
            else if Sibling(b) > b then Join(sha, level[b], level[Sibling(b)])
            else Join(sha, level[Sibling(b)], level[b])
  {
  }

  /** Before level k: climbing from node b of this level ends in `target`. */
  ghost predicate Climbing(sha: Digest, t: Tree, k: nat, b: nat, target: Tree) {
    && k < |t| && Shaped(t[k..], |t[k]|) && b < |t[k]|
    && t[..k] + Climb(sha, t[k..], b) == target
  }

  lemma NextLevel(t: Tree, k: nat)
    requires k + 1 < |t| && Shaped(t[k..], |t[k]|)
    ensures |t[k + 1]| == Up(|t[k]|) && Shaped(t[k + 1..], |t[k + 1]|)
  {
    assert t[k..][1..] == t[k + 1..];
  }

  /** One turn of setHash's loop, from level k to level k + 1. */
  lemma ClimbTurn(sha: Digest, t: Tree, k: nat, b: nat, up: Level, target: Tree)
    requires Climbing(sha, t, k, b, target) && k + 1 < |t| && b / 2 < |t[k + 1]|
    requires var v := Parent(sha, t[k], b / 2);
             up == if v.Some? then t[k + 1][b / 2 := v] else t[k + 1]
    ensures Climbing(sha, t[k + 1 := up], k + 1, b / 2, target)
  {
    var t', rest := t[k + 1 := up], t[k..];
    assert rest[1..] == t[k + 1..] && Shaped(rest[1..], Up(|rest[0]|));
    var above := rest[1..][0 := up];
    assert t'[k + 1..] == above && above[1..] == rest[1..][1..];
    assert Climb(sha, rest, b) == [rest[0]] + Climb(sha, above, b / 2);
    assert t'[..k + 1] == t[..k] + [t[k]];
    Regroup(t[..k], t[k], Climb(sha, above, b / 2));
  }

  lemma ClimbEnds(sha: Digest, t: Tree, b: nat, target: Tree)
    requires |t| >= 1 && Climbing(sha, t, |t| - 1, b, target)
    ensures t == target
  {
    assert t == t[..|t| - 1] + t[|t| - 1..];
  }

  /** Before level k of the write-back: what is left to write completes `target`. */
  ghost predicate Writing(t: Tree, k: nat, b: nat, list: seq<Hash>, target: Tree) {
    && |list| == |t| - 1 && k <= |list|
    && Shaped(t[k..], |t[k]|) && b < |t[k]|
    && t[..k] + PutSiblings(t[k..], b, list[k..]) == target
  }

  /** One turn of the write-back loop, on level k. */
  lemma PutTurn(t: Tree, k: nat, b: nat, list: seq<Hash>, target: Tree)
    requires Writing(t, k, b, list, target) && k < |list|
    ensures Writing(t[k := PutAt(t[k], Sibling(b), list[k])], k + 1, b / 2, list, target)
  {
    var t', rest := t[k := PutAt(t[k], Sibling(b), list[k])], t[k..];
    assert rest[1..] == t[k + 1..] == t'[k + 1..] && Shaped(rest[1..], Up(|rest[0]|));
    assert list[k..][1..] == list[k + 1..];
    assert t'[..k + 1] == t[..k] + [t'[k]];
    Regroup(t[..k], t'[k], PutSiblings(rest[1..], b / 2, list[k + 1..]));
  }

  lemma PutBegins(t: Tree, b: nat, list: seq<Hash>)
    requires |t| >= 2 && Shaped(t, |t[0]|) && |list| == |t| - 1
    requires Shaped(t[1..], |t[1]|) && b < |t[1]|
    ensures var target := [t[0]] + PutSiblings(t[1..], b, list[1..]);
            Shaped(target, |target[0]|) && Writing(t, 1, b, list, target)
  {
    var above := PutSiblings(t[1..], b, list[1..]);
    assert ([t[0]] + above)[1..] == above;
    assert t[..1] == [t[0]];
  }

  lemma PutEnds(t: Tree, b: nat, list: seq<Hash>, target: Tree)
    requires |t| >= 1 && Writing(t, |t| - 1, b, list, target)
    ensures t == target
  {
    assert t == t[..|t| - 1] + t[|t| - 1..];
  }

  /** The levels read so far, followed by whatever the rest of the input gives. */
  function Glued<T>(done: seq<T>, rest: Result<seq<T>>): Result<seq<T>> {
    if rest.Err? then Err else Ok(done + rest.value)
  }

  lemma GluedToNothing<T>(r: Result<seq<T>>)
    ensures Glued([], r) == r
  {
    if r.Ok? {
      assert [] + r.value == r.value;
    }
  }

  /** The bytes `data` over the contents of a buffer from `at` on. */
  function Written(buffer: seq<byte>, at: nat, data: seq<byte>): (r: seq<byte>)
    requires at + |data| <= |buffer|
    ensures |r| == |buffer|
  {
    buffer[..at] + data + buffer[at + |data|..]
  }

  lemma WrittenTwice(buffer: seq<byte>, at: nat, a: seq<byte>, b: seq<byte>)
    requires at + |a| + |b| <= |buffer|
    ensures Written(Written(buffer, at, a), at + |a|, b) == Written(buffer, at, a + b)
  {
  }

  lemma WrittenNothing(buffer: seq<byte>, at: nat)
    requires at <= |buffer|
    ensures Written(buffer, at, []) == buffer
  {
  }

  /** memcpy into a buffer. */
  method CopyInto(buffer: array<byte>, at: nat, s: seq<byte>)
    requires at + |s| <= buffer.Length
    modifies buffer
    ensures buffer[..] == Written(old(buffer[..]), at, s)
  {
    forall b | 0 <= b < |s| {
      buffer[at + b] := s[b];
    }
  }

  /** Writing `rest` at i will complete `whole`. */
  ghost predicate Filling(whole: seq<byte>, buffer: seq<byte>, i: nat, rest: seq<byte>) {
    i + |rest| <= |buffer| && Written(buffer, i, rest) == whole
  }

  lemma FillTurn(whole: seq<byte>, buffer: seq<byte>, i: nat, a: seq<byte>, b: seq<byte>)
    requires Filling(whole, buffer, i, a + b)
    ensures Filling(whole, Written(buffer, i, a), i + |a|, b)
  {
    WrittenTwice(buffer, i, a, b);
  }

  lemma LevelFrom(level: Level, k: nat)
    requires k < |level|
    ensures EncodeLevel(level[k..]) == EncodeSlot(level[k]) + EncodeLevel(level[k + 1..])
  {
    assert level[k..][1..] == level[k + 1..];
  }

  lemma TreeFrom(t: Tree, j: nat)
    requires j < |t|
    ensures EncodeTree(t[j..]) == EncodeLevel(t[j]) + EncodeTree(t[j + 1..])
  {
    assert t[j..][1..] == t[j + 1..];
  }

  /** serialize's inner loop: the nodes of one level. */
  method WriteLevel(buffer: array<byte>, at: nat, level: Level) returns (i: nat)
    requires at + HASH_SIZE * |level| <= buffer.Length
    modifies buffer
    ensures i == at + HASH_SIZE * |level|
    ensures buffer[..] == Written(old(buffer[..]), at, EncodeLevel(level))
  {
    i := at;
    ghost var whole := Written(buffer[..], at, EncodeLevel(level));
    assert level[0..] == level;
    for k := 0 to |level|
      invariant i == at + HASH_SIZE * k
      invariant Filling(whole, buffer[..], i, EncodeLevel(level[k..]))
    {
      LevelFrom(level, k);
      FillTurn(whole, buffer[..], i, EncodeSlot(level[k]), EncodeLevel(level[k + 1..]));
      CopyInto(buffer, i, EncodeSlot(level[k]));
      i := i + HASH_SIZE;
    }
    WrittenNothing(buffer[..], i);
  }

  /** serialize's outer loop: every level. */
  method WriteTree(buffer: array<byte>, at: nat, t: Tree) returns (i: nat)
    requires at + |EncodeTree(t)| <= buffer.Length
    modifies buffer
    ensures i == at + |EncodeTree(t)|
    ensures buffer[..] == Written(old(buffer[..]), at, EncodeTree(t))
  {
    i := at;
    ghost var whole := Written(buffer[..], at, EncodeTree(t));
    assert t[0..] == t;
    for j := 0 to |t|
      invariant i + |EncodeTree(t[j..])| == at + |EncodeTree(t)|
      invariant Filling(whole, buffer[..], i, EncodeTree(t[j..]))
    {
      TreeFrom(t, j);
      FillTurn(whole, buffer[..], i, EncodeLevel(t[j]), EncodeTree(t[j + 1..]));
      i := WriteLevel(buffer, i, t[j]);
    }
    WrittenNothing(buffer[..], i);
  }

  /** Before the next of n nodes: what the rest of the input gives completes what was read. */
  ghost predicate ParsingLevel(whole: Result<Level>, done: Level, n: nat, data: seq<byte>, index: nat) {
    index <= |data| && whole == Glued(done, ReadLevel(n, data[index..]))
  }

  lemma ReadLevelTurn(whole: Result<Level>, done: Level, n: nat, data: seq<byte>, at: nat)
    requires n > 0 && ParsingLevel(whole, done, n, data, at)
    ensures if at + HASH_SIZE > |data| then whole == Err
            else ParsingLevel(whole, done + [DecodeSlot(data[at..at + HASH_SIZE])], n - 1, data, at + HASH_SIZE)
  {
    var s := data[at..];
    if at + HASH_SIZE <= |data| {
      assert s[HASH_SIZE..] == data[at + HASH_SIZE..] && s[..HASH_SIZE] == data[at..at + HASH_SIZE];
      var slot, rest := DecodeSlot(s[..HASH_SIZE]), ReadLevel(n - 1, s[HASH_SIZE..]);
      if rest.Ok? {
        assert done + ([slot] + rest.value) == (done + [slot]) + rest.value;
      }
    }
  }

  /** The byte constructor's inner loop: the nodes of one level. */
  method ParseLevel(data: seq<byte>, at: nat, width: nat) returns (row: Result<Level>)
    requires at <= |data|
    ensures row == ReadLevel(width, data[at..])
  {
    var nodes: Level, index: nat := [], at;
    ghost var whole := ReadLevel(width, data[at..]);
    GluedToNothing(whole);
    for k := 0 to width
      invariant |nodes| == k
      invariant ParsingLevel(whole, nodes, width - k, data, index)
    {
      ReadLevelTurn(whole, nodes, width - k, data, index);
      if index + HASH_SIZE > |data| {
        return Err;
      }
      nodes := nodes + [DecodeSlot(data[index..index + HASH_SIZE])];
      index := index + HASH_SIZE;
    }
    assert nodes + [] == nodes;
    return Ok(nodes);
  }

  lemma ReadTreeTurn(done: Tree, level: Level, n: nat, data: seq<byte>, at: nat)
    requires n >= 1 && at <= |data| && ReadLevel(n, data[at..]) == Ok(level)
    ensures at + HASH_SIZE * n <= |data|
    ensures n == 1 ==> Glued(done, ReadTree(n, data[at..])) == Ok(done + [level])
    ensures n > 1 ==>
              Glued(done + [level], ReadTree(Up(n), data[at + HASH_SIZE * n..])) == Glued(done, ReadTree(n, data[at..]))
  {
    var s := data[at..];
    assert s[HASH_SIZE * n..] == data[at + HASH_SIZE * n..];
    if n > 1 {
      var above := ReadTree(Up(n), s[HASH_SIZE * n..]);
      if above.Ok? {
        Regroup(done, level, above.value);
      }
    }
  }

  lemma LayoutTurn(t: Tree, j: nat)
    requires j < |t| && Shaped(t[j..], |t[j]|)
    ensures |t[j]| == 1 ==> j + 1 == |t|
    ensures |t[j]| > 1 ==> j + 1 < |t| && |t[j + 1]| == Up(|t[j]|) && Shaped(t[j + 1..], |t[j + 1]|)
  {
    assert t[j..][1..] == t[j + 1..];
  }

  /** Before level j: what the rest of the input gives completes what was read. */
  ghost predicate Parsing(whole: Result<Tree>, done: Tree, layout: Tree, j: nat, data: seq<byte>, index: nat) {
    if j < |layout| then
      && index <= |data| && Shaped(layout[j..], |layout[j]|)
      && whole == Glued(done, ReadTree(|layout[j]|, data[index..]))
    else whole == Ok(done)
  }

  lemma ParseTurn(whole: Result<Tree>, done: Tree, layout: Tree, j: nat, data: seq<byte>, index: nat,
                  row: Result<Level>)
    requires j < |layout| && Parsing(whole, done, layout, j, data, index)
    requires row == ReadLevel(|layout[j]|, data[index..])
    ensures row.Err? ==> whole.Err?
    ensures row.Ok? ==> Parsing(whole, done + [row.value], layout, j + 1, data, index + HASH_SIZE * |layout[j]|)
  {
    LayoutTurn(layout, j);
    if row.Ok? {
      ReadTreeTurn(done, row.value, |layout[j]|, data, index);
    }
  }

  /** The byte constructor's outer loop, over the levels that initTree laid out. */
  method ParseTree(data: seq<byte>, at: nat, layout: Tree) returns (t: Result<Tree>)
    requires at <= |data| && |layout| >= 1 && Shaped(layout, |layout[0]|)
    ensures t == ReadTree(|layout[0]|, data[at..])
  {
    var index: nat, done: Tree := at, [];
    ghost var whole := ReadTree(|layout[0]|, data[at..]);
    GluedToNothing(whole);
    assert layout[0..] == layout;
    for j := 0 to |layout|
      invariant Parsing(whole, done, layout, j, data, index)
    {
      var row := ParseLevel(data, index, |layout[j]|);
      ParseTurn(whole, done, layout, j, data, index, row);
      if row.Err? {
        return Err;
      }
      index := index + HASH_SIZE * |layout[j]|;
      done := done + [row.value];
    }
    return Ok(done);
  }

  /** One turn of hashList's loop, on level k. */
  lemma HashListTurn(list: Level, t: Tree, k: nat, b: nat)
    requires k + 1 < |t| && Shaped(t[k..], |t[k]|)
    ensures Shaped(t[k + 1..], |t[k + 1]|)
    ensures list + BlockProof.HashList(t[k..], b)
         == (list + [SiblingSlot(t[k], b)]) + BlockProof.HashList(t[k + 1..], b / 2)
  {
    assert t[k..][1..] == t[k + 1..] && Shaped(t[k..][1..], Up(|t[k]|));
  }

  class File {
    const sha: Digest
    var filesize: nat
    var tree: Tree
    var blocks: seq<bool>

    ghost predicate Valid()
      reads this
    {
      |blocks| == BlockCount(filesize) && Shaped(tree, |blocks|)
    }

    constructor (sha: Digest, filesize: nat, rootHash: Slot)
      ensures Valid() && this.sha == sha && this.filesize == filesize
      ensures tree == InitialTree(BlockCount(filesize), rootHash)
      ensures |blocks| == BlockCount(filesize) && forall b :: 0 <= b < |blocks| ==> !blocks[b]
    {
      this.sha := sha;
      this.filesize := filesize;
      this.blocks := seq(BlockCount(filesize), _ => false);
      this.tree := [];
      new;
      InitTree(rootHash);
    }

    method InitTree(rootHash: Slot)
      requires |blocks| >= 1
      modifies this`tree
      ensures tree == InitialTree(|blocks|, rootHash) && Shaped(tree, |blocks|)
    {
      tree := [];
      var i: nat := |blocks|;
      ghost var target := InitialTree(i, rootHash);
      while i > 1
        invariant i >= 1
        invariant tree + InitialTree(i, rootHash) == target
      {
        Regroup(tree, NullLevel(i), InitialTree(Up(i), rootHash));
        tree := tree + [NullLevel(i)];
        i := (i + 1) / 2;
      }
      tree := tree + [[rootHash]];
    }

    method SetHash(block: nat, hash: Hash)
      requires |tree| >= 1 && Shaped(tree, |tree[0]|) && block < |tree[0]|
      modifies this`tree
      ensures tree == PartialTree.SetHash(sha, old(tree), block, hash)
    {
      ghost var target := PartialTree.SetHash(sha, tree, block, hash);
      tree := tree[0 := tree[0][block := Some(hash)]];
      assert tree[1..] == old(tree)[1..];
      assert tree[0..] == tree && tree[..0] == [];
      var levelNum: nat, node: nat := 0, block;
      while levelNum < |tree| - 1
        invariant |tree| == |old(tree)| && levelNum < |tree|
        invariant Climbing(sha, tree, levelNum, node, target)
      {
        NextLevel(tree, levelNum);
        var sibling, level, h := Sibling(node), tree[levelNum], tree[levelNum][node];
        var up := tree[levelNum + 1];
        if h.Some? && sibling >= |level| {
          up := up[node / 2 := h];
        } else if h.Some? && level[sibling].Some? {
          var combined: Hash := if sibling > node then Combine(sha, h.value, level[sibling].value)
                                else Combine(sha, level[sibling].value, h.value);
          up := up[node / 2 := Some(combined)];
        }
        ParentFromChild(sha, level, node);
        ClimbTurn(sha, tree, levelNum, node, up, target);
        tree := tree[levelNum + 1 := up];
        levelNum, node := levelNum + 1, node / 2;
      }
      ClimbEnds(sha, tree, node, target);
    }

    method HashList(block: nat) returns (list: seq<Slot>)
      requires Valid()
      ensures list == BlockProof.HashList(tree, block)
    {
      list := [];
      var i: nat, parent: nat := 0, block;
      assert tree[0..] == tree;
      while i < |tree| - 1
        invariant 0 <= i < |tree|
        invariant Shaped(tree[i..], |tree[i]|)
        invariant list + BlockProof.HashList(tree[i..], parent) == BlockProof.HashList(tree, block)
      {
        var sibling := Sibling(parent);
        HashListTurn(list, tree, i, parent);
        list := list + [if sibling < |tree[i]| then tree[i][sibling] else Some(ZERO_HASH)];
        i, parent := i + 1, parent / 2;
      }
    }

    /** checkBlock for lists as hashList makes them, with orphan levels skipped in the fold
        and in the write-back. AsWritten.CheckBlock is the source's own form. */
    method CheckBlock(block: nat, hash: Hash, list: seq<Hash>) returns (ok: bool)
      requires Valid() && block < |blocks|
      modifies this`tree, this`blocks
      ensures Valid()
      ensures ok == Accepts(sha, old(tree), block, hash, list)
      ensures tree == if ok then Graft(sha, old(tree), block, hash, list) else old(tree)
      ensures blocks == if ok then old(blocks)[block := true] else old(blocks)
    {
      SidesDepth(tree, |tree[0]|, block);
      if |list| != |tree| - 1 {
        return false;
      }
      var globalHash := FoldUp(block, hash, list);
      RootIsLast(tree);
      ok := tree[|tree| - 1][0] == Some(globalHash);
      if ok {
        SetHash(block, hash);
        blocks := blocks[block := true];
        if |list| > 0 {
          assert Shaped(tree[1..], Up(|tree[0]|));
          WriteSiblings(block, list);
          if Sibling(block) < |tree[0]| {
            SetHash(Sibling(block), list[0]);
          }
        }
      }
    }

    method FoldUp(block: nat, hash: Hash, list: seq<Hash>) returns (globalHash: Hash)
      requires |tree| >= 1 && Shaped(tree, |tree[0]|) && block < |tree[0]|
      requires |list| == |tree| - 1 == |Sides(|tree[0]|, block)|
      ensures globalHash == Fold(sha, Sides(|tree[0]|, block), hash, list)
    {
      globalHash := hash;
      var i: nat, parent: nat := 0, block;
      assert tree[0..] == tree && list[0..] == list;
      while i < |list|
        invariant 0 <= i <= |list|
        invariant Shaped(tree[i..], |tree[i]|) && parent < |tree[i]|
        invariant |Sides(|tree[i]|, parent)| == |list[i..]|
        invariant Fold(sha, Sides(|tree[i]|, parent), globalHash, list[i..])
               == Fold(sha, Sides(|tree[0]|, block), hash, list)
      {
        var h := list[i];
        assert tree[i..][1..] == tree[i + 1..] && Shaped(tree[i..][1..], Up(|tree[i]|));
        assert list[i..][1..] == list[i + 1..];
        assert Sides(|tree[i]|, parent)[1..] == Sides(|tree[i + 1]|, parent / 2);
        if parent % 2 != 0 {
          globalHash := Combine(sha, h, globalHash);
        } else if parent + 1 < |tree[i]| {
          globalHash := Combine(sha, globalHash, h);
        }
        i, parent := i + 1, parent / 2;
      }
    }

    method WriteSiblings(block: nat, list: seq<Hash>)
      requires |tree| >= 2 && Shaped(tree, |tree[0]|) && block < |tree[0]| && |list| == |tree| - 1
      requires Shaped(tree[1..], |tree[1]|) && block / 2 < |tree[1]|
      modifies this`tree
      ensures tree == [old(tree)[0]] + PutSiblings(old(tree)[1..], block / 2, list[1..])
      ensures Shaped(tree, |tree[0]|)
    {
      ghost var target := [tree[0]] + PutSiblings(tree[1..], block / 2, list[1..]);
      PutBegins(tree, block / 2, list);
      var level: nat, sibling: nat := 1, block / 2;
      while level < |list|
        invariant 1 <= level <= |list| == |tree| - 1
        invariant Writing(tree, level, sibling, list, target)
      {
        ghost var node := sibling;
        sibling := if sibling % 2 == 0 then sibling + 1 else sibling - 1;
        var row := tree[level];
        if sibling < |row| {
          row := row[sibling := Some(list[level])];
        }
        assert row == PutAt(tree[level], Sibling(node), list[level]);
        assert sibling / 2 == node / 2;
        PutTurn(tree, level, node, list, target);
        tree := tree[level := row];
        level, sibling := level + 1, sibling / 2;
      }
      PutEnds(tree, sibling, list, target);
    }

    method IsComplete() returns (complete: bool)
      ensures complete <==> forall b :: 0 <= b < |blocks| ==> blocks[b]
    {
      for i := 0 to |blocks|
        invariant forall b :: 0 <= b < i ==> blocks[b]
      {
        if !blocks[i] {
          return false;
        }
      }
      return true;
    }

    // ---- Byte form

    function Contents(): Stored
      reads this
    {
      Stored(filesize, blocks, tree)
    }

    method SerializedSize() returns (size: nat)
      requires Valid()
      ensures size == FileFormat.SerializedSize(|blocks|)
    {
      var numHashes: nat, k: nat := 0, 0;
      assert tree[0..] == tree;
      while k < |tree|
        invariant 0 <= k <= |tree|
        invariant k < |tree| ==> Shaped(tree[k..], |tree[k]|) && numHashes + NodeCount(|tree[k]|) == NodeCount(|blocks|)
        invariant k == |tree| ==> numHashes == NodeCount(|blocks|)
      {
        assert tree[k..][1..] == tree[k + 1..];
        numHashes := numHashes + |tree[k]|;
        k := k + 1;
      }
      size := SIZE_BYTES + (|blocks| + 7) / 8 + numHashes * HASH_SIZE;
    }

    method PackStates(out: array<byte>, at: nat) returns (bytes: nat)
      requires at + StateBytes(|blocks|) <= out.Length
      modifies out
      ensures bytes == StateBytes(|blocks|)
      ensures out[..] == Written(old(out[..]), at, Packed(blocks, |blocks|))
    {
      bytes := if |blocks| == 0 then 1 else (|blocks| + 7) / 8;
      forall j | 0 <= j < bytes {
        out[at + j] := 0;
      }
      ghost var end := at + bytes;
      for i := 0 to |blocks|
        invariant out[at..end] == Packed(blocks, i)
        invariant out[..at] == old(out[..at]) && out[end..] == old(out[end..])
      {
        if blocks[i] {
          assert out[at + i / 8] == out[at..end][i / 8];
          out[at + i / 8] := SetBit(out[at + i / 8], i % 8);
        }
      }
      assert out[..] == out[..at] + out[at..end] + out[end..];
    }

    /** serialize once it has a buffer. */
    method Fill(buffer: array<byte>) returns (i: nat)
      requires Valid() && filesize < WORD64
      requires buffer.Length >= FileFormat.SerializedSize(|blocks|)
      modifies buffer
      ensures i == FileFormat.SerializedSize(|blocks|)
      ensures |Encode(Contents())| == i && buffer[..] == Written(old(buffer[..]), 0, Encode(Contents()))
    {
      ghost var size, states, nodes := LittleEndian(filesize, SIZE_BYTES), Packed(blocks, |blocks|), EncodeTree(tree);
      EncodedTreeSize(tree, |blocks|);
      WrittenTwice(buffer[..], 0, size, states);
      WrittenTwice(buffer[..], 0, size + states, nodes);
      CopyInto(buffer, 0, LittleEndian(filesize, SIZE_BYTES));
      var packed := PackStates(buffer, SIZE_BYTES);
      i := SIZE_BYTES + packed;
      i := WriteTree(buffer, i, tree);
    }

    method Serialize(out: array?<byte>) returns (buffer: array<byte>, i: nat)
      requires Valid() && filesize < WORD64
      requires out != null ==> out.Length >= FileFormat.SerializedSize(|blocks|)
      modifies out
      ensures if out != null then buffer == out else fresh(buffer) && buffer.Length == i
      ensures i == FileFormat.SerializedSize(|blocks|) <= buffer.Length
      ensures buffer[..i] == Encode(Contents())
      ensures out != null ==> buffer[i..] == old(out[FileFormat.SerializedSize(|blocks|)..])
    {
      if out == null {
        var size := SerializedSize();
        buffer := new byte[size](_ => 0);
      } else {
        buffer := out;
      }
      i := Fill(buffer);
      assert buffer[..i] == buffer[..][..i] && buffer[i..] == buffer[..][i..];
    }

    method UnpackStates(data: seq<byte>) returns (bytes: nat)
      requires |data| >= StateBytes(|blocks|)
      modifies this`blocks
      ensures blocks == Unpacked(data, old(|blocks|)) && bytes == StateBytes(|blocks|)
    {
      for i := 0 to |blocks|
        invariant |blocks| == old(|blocks|)
        invariant forall j :: 0 <= j < i ==> blocks[j] == TestBit(data[j / 8], j % 8)
      {
        blocks := blocks[i := TestBit(data[i / 8], i % 8)];
      }
      bytes := if |blocks| == 0 then 1 else (|blocks| + 7) / 8;
    }

    /** The byte constructor; Err is UnserializeException. */
    static method Unserialize(sha: Digest, data: seq<byte>) returns (r: Result<File>)
      requires HeaderReadable(data)
      ensures r.Err? <==> Decode(data).Err?
      ensures r.Ok? ==> && fresh(r.value) && r.value.Valid() && r.value.sha == sha
                        && Decode(data) == Ok(r.value.Contents())
    {
      var f := new File(sha, FromLittleEndian(data[..SIZE_BYTES]), None);
      var n := |f.blocks|;
      var packed := f.UnpackStates(data[SIZE_BYTES..]);
      var index: nat := SIZE_BYTES + packed;
      var t := ParseTree(data, index, f.tree);
      if t.Err? {
        return Err;
      }
      f.tree := t.value;
      ReadTreeShaped(n, data[index..]);
      return Ok(f);
    }
  }
}
