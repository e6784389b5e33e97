/** The hash tree of a file: level by level as File.cpp stores it, and top down as the
    reference. A level is a vector of slots; a slot is null while its hash is unknown. */
module Merkle {
  import opened Hashes

  type Level = seq<Slot>
  type Tree = seq<Level>

  /** Size of the level above one of n nodes: ceil(n / 2). */
  function Up(n: nat): nat {
    (n + 1) / 2
  }

  function Join(sha: Digest, l: Slot, r: Slot): Slot {
    if l.Some? && r.Some? then Some(Combine(sha, l.value, r.value)) else None
  }

  /** What node i of the next level should hold: its two children hashed together, or
      its only child unchanged. */
  function Parent(sha: Digest, level: Level, i: nat): Slot
    requires 2 * i < |level|
  {
    if 2 * i + 1 < |level| then Join(sha, level[2 * i], level[2 * i + 1]) else level[2 * i]
  }

  function Grow(sha: Digest, level: Level): (above: Level)
    ensures |above| == Up(|level|)
  {
    seq(Up(|level|), i requires 0 <= i < Up(|level|) => Parent(sha, level, i))
  }

  /** The tree over a bottom level: levels up to the single root. */
  function TreeOf(sha: Digest, level: Level): (t: Tree)
    requires |level| >= 1
    ensures |t| >= 1 && t[0] == level
    ensures Shaped(t, |level|)
    decreases |level|
  {
    if |level| == 1 then [level] else
      var above := TreeOf(sha, Grow(sha, level));
      assert ([level] + above)[1..] == above;
      [level] + above
  }

  /** The vectors that initTree allocates for n blocks. */
  predicate Shaped(t: Tree, n: nat)
    decreases |t|
  {
    && n >= 1 && |t| >= 1 && |t[0]| == n
    && if n == 1 then |t| == 1 else |t| >= 2 && Shaped(t[1..], Up(n))
  }

  /** The single node of the last level (RootIsLast). */
  function Root(t: Tree): Slot
    requires |t| >= 1 && Shaped(t, |t[0]|)
    decreases |t|
  {
    if |t| == 1 then t[0][0] else
      assert Shaped(t[1..], Up(|t[0]|));
      Root(t[1..])
  }

  lemma {:induction false} RootIsLast(t: Tree)
    requires |t| >= 1 && Shaped(t, |t[0]|)
    ensures t[|t| - 1] == [Root(t)]
    decreases |t|
  {
    if |t| > 1 {
      RootIsLast(t[1..]);
    }
  }

  // ---- Top-down reference: split at the largest power of two below the size

  predicate PowerOfTwo(k: nat) {
    k == 1 || (k > 1 && k % 2 == 0 && PowerOfTwo(k / 2))
  }

  function Doubled(k: nat, n: nat): (split: nat)
    requires PowerOfTwo(k) && k < n
    ensures PowerOfTwo(split) && split < n <= 2 * split
    decreases n - k
  {
    if n <= 2 * k then k else Doubled(2 * k, n)
  }

  /** The largest power of two strictly below n. */
  function Split(n: nat): (split: nat)
    requires n >= 2
    ensures PowerOfTwo(split) && split < n <= 2 * split
  {
    Doubled(1, n)
  }

  /** Section 2.1 of RFC 6962 without its prefix bytes, over leaf hashes. */
  function TreeHash(sha: Digest, leaves: seq<Hash>): Hash
    requires |leaves| >= 1
    decreases |leaves|
  {
    if |leaves| == 1 then leaves[0] else
      var k := Split(|leaves|);
      Combine(sha, TreeHash(sha, leaves[..k]), TreeHash(sha, leaves[k..]))
  }

  /** The same over slots: null as soon as one leaf is null (see TopDownMeaning). */
  function TopDown(sha: Digest, level: Level): Slot
    requires |level| >= 1
    decreases |level|
  {
    if |level| == 1 then level[0] else
      var k := Split(|level|);
      Join(sha, TopDown(sha, level[..k]), TopDown(sha, level[k..]))
  }

  predicate AllSet(level: Level) {
    forall i :: 0 <= i < |level| ==> level[i].Some?
  }

  function Values(level: Level): (v: seq<Hash>)
    requires AllSet(level)
    ensures |v| == |level|
  {
    seq(|level|, i requires 0 <= i < |level| => level[i].value)
  }

  function Somes(leaves: seq<Hash>): (level: Level)
    ensures |level| == |leaves| && AllSet(level)
  {
    seq(|leaves|, i requires 0 <= i < |leaves| => Some(leaves[i]))
  }

  lemma {:induction false} PowersGrow(a: nat, b: nat)
    requires PowerOfTwo(a) && PowerOfTwo(b) && a < b
    ensures 2 * a <= b
    decreases a
  {
    if a > 1 {
      PowersGrow(a / 2, b / 2);
    }
  }

  /** There is only one power of two k with k < n <= 2k. */
  lemma SplitUnique(n: nat, k: nat)
    requires n >= 2 && PowerOfTwo(k) && k < n <= 2 * k
    ensures Split(n) == k
  {
    var s := Split(n);
    if s < k {
      PowersGrow(s, k);
    } else if k < s {
      PowersGrow(k, s);
    }
  }

  lemma {:induction false} TopDownMeaning(sha: Digest, level: Level)
    requires |level| >= 1
    ensures TopDown(sha, level) ==
            if AllSet(level) then Some(TreeHash(sha, Values(level))) else None
    decreases |level|
  {
    if |level| > 1 {
      var k := Split(|level|);
      var left, right := level[..k], level[k..];
      TopDownMeaning(sha, left);
      TopDownMeaning(sha, right);
      if AllSet(level) {
        assert Values(level)[..k] == Values(left);
        assert Values(level)[k..] == Values(right);
      } else {
        var i :| 0 <= i < |level| && level[i].None?;
        assert if i < k then left[i].None? else right[i - k].None?;
      }
    }
  }

  /** One round of pairing does not change the top-down hash. */
  lemma {:induction false} GrowKeepsTopDown(sha: Digest, level: Level)
    requires |level| >= 1
    ensures TopDown(sha, Grow(sha, level)) == TopDown(sha, level)
    decreases |level|
  {
    var n := |level|;
    if n > 2 {
      var k := Split(n);
      assert k > 1;
      var left, right := level[..k], level[k..];
      var above := Grow(sha, level);
      assert above[..k / 2] == Grow(sha, left);
      assert above[k / 2..] == Grow(sha, right);
      SplitUnique(Up(n), k / 2);
      GrowKeepsTopDown(sha, left);
      GrowKeepsTopDown(sha, right);
    }
  }

  /** The root of the level-by-level tree is the top-down hash, for every size. */
  lemma {:induction false} RootIsTopDown(sha: Digest, level: Level)
    requires |level| >= 1
    ensures Root(TreeOf(sha, level)) == TopDown(sha, level)
    decreases |level|
  {
    if |level| > 1 {
      GrowKeepsTopDown(sha, level);
      RootIsTopDown(sha, Grow(sha, level));
    }
  }

  lemma RootIsTreeHash(sha: Digest, leaves: seq<Hash>)
    requires |leaves| >= 1
    ensures Root(TreeOf(sha, Somes(leaves))) == Some(TreeHash(sha, leaves))
  {
    RootIsTopDown(sha, Somes(leaves));
    TopDownMeaning(sha, Somes(leaves));
    assert Values(Somes(leaves)) == leaves;
  }

  // ---- Which leaves a node stands for

  function Pow2(k: nat): (p: nat)
    ensures p >= 1 && PowerOfTwo(p)
  {
    if k == 0 then 1 else 2 * Pow2(k - 1)
  }

  /** First leaf below node i of level k; equals i * 2^k (FirstIsMultiple). */
  function First(k: nat, i: nat): nat {
    if k == 0 then i else 2 * First(k - 1, i)
  }

  /** One past the last leaf below node i of level k, in a file of n blocks. */
  function Last(n: nat, k: nat, i: nat): nat {
    if First(k, i + 1) < n then First(k, i + 1) else n
  }

  lemma {:induction false} FirstIsMultiple(k: nat, i: nat)
    ensures First(k, i) == i * Pow2(k)
  {
    if k > 0 {
      FirstIsMultiple(k - 1, i);
      assert 2 * (i * Pow2(k - 1)) == i * (2 * Pow2(k - 1));
    }
  }

  /** Level k has w = ceil(n / 2^k) nodes: (w - 1) * 2^k < n <= w * 2^k. */
  lemma {:induction false} LevelWidth(sha: Digest, level: Level, k: nat)
    requires |level| >= 1 && k < |TreeOf(sha, level)|
    ensures var w := |TreeOf(sha, level)[k]|;
            w >= 1 && (w - 1) * Pow2(k) < |level| <= w * Pow2(k)
  {
    LevelEnds(sha, level, k);
    FirstIsMultiple(k, |TreeOf(sha, level)[k]| - 1);
    FirstIsMultiple(k, |TreeOf(sha, level)[k]|);
  }

  lemma {:induction false} LevelEnds(sha: Digest, level: Level, k: nat)
    requires |level| >= 1 && k < |TreeOf(sha, level)|
    ensures |TreeOf(sha, level)[k]| >= 1
    ensures First(k, |TreeOf(sha, level)[k]| - 1) < |level| <= First(k, |TreeOf(sha, level)[k]|)
    decreases k
  {
    if k > 0 {
      LevelEnds(sha, Grow(sha, level), k - 1);
    }
  }

  /** Pairing a stretch of nodes that starts at an even one. */
  lemma GrowSlice(sha: Digest, level: Level, a: nat, b: nat, end: nat)
    requires a < b <= Up(|level|) && end == if 2 * b <= |level| then 2 * b else |level|
    ensures Grow(sha, level)[a..b] == Grow(sha, level[2 * a..end])
  {
    var l, r := Grow(sha, level)[a..b], Grow(sha, level[2 * a..end]);
    forall j | 0 <= j < b - a ensures l[j] == r[j] {
      assert l[j] == Parent(sha, level, a + j);
      assert r[j] == Parent(sha, level[2 * a..end], j);
    }
    assert |l| == |r|;
  }

  /** Node i of level k is the top-down hash of the leaves [First, Last): null iff one of
      them is null, and otherwise their Merkle hash (with TopDownMeaning). */
  lemma {:induction false} NodeCoversRange(sha: Digest, level: Level, k: nat, i: nat)
    requires |level| >= 1 && k < |TreeOf(sha, level)|
    requires i < |TreeOf(sha, level)[k]|
    ensures First(k, i) < Last(|level|, k, i) <= |level|
    ensures TreeOf(sha, level)[k][i] == TopDown(sha, level[First(k, i)..Last(|level|, k, i)])
    decreases k
  {
    if k == 0 {
      assert level[i..i + 1] == [level[i]];
    } else {
      var above := Grow(sha, level);
      NodeCoversRange(sha, above, k - 1, i);
      GrowSlice(sha, level, First(k - 1, i), Last(|above|, k - 1, i), Last(|level|, k, i));
      GrowKeepsTopDown(sha, level[First(k, i)..Last(|level|, k, i)]);
    }
  }
}
