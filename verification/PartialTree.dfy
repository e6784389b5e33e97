/** Partially filled trees: the climb of setHash, and how trees compare. */
module PartialTree {
  import opened Hashes
  import opened Merkle

  /** The part of a tree above its bottom level after one turn of the climb: node i is
      recomputed when both its children (or the only one) are known, and else left alone. */
  function Above(sha: Digest, t: Tree, i: nat): (r: Tree)
    requires |t| >= 2 && Shaped(t, |t[0]|) && 2 * i < |t[0]|
    ensures |r| == |t| - 1 && Shaped(r, Up(|t[0]|))
  {
    var v := Parent(sha, t[0], i);
    assert Shaped(t[1..], Up(|t[0]|));
    var above := t[1..][0 := if v.Some? then t[1][i := v] else t[1]];
    assert above[1..] == t[1..][1..];
    above
  }

  /** setHash after its first write: from node b of the bottom level up to the root. */
  function Climb(sha: Digest, t: Tree, b: nat): (r: Tree)
    requires |t| >= 1 && Shaped(t, |t[0]|) && b < |t[0]|
    ensures |r| == |t| && Shaped(r, |t[0]|) && r[0] == t[0]
    decreases |t|
  {
    if |t| == 1 then t else [t[0]] + Climb(sha, Above(sha, t, b / 2), b / 2)
  }

  function SetHash(sha: Digest, t: Tree, b: nat, h: Hash): (r: Tree)
    requires |t| >= 1 && Shaped(t, |t[0]|) && b < |t[0]|
    ensures |r| == |t| && Shaped(r, |t[0]|) && r[0] == t[0][b := Some(h)]
  {
    var t' := t[0 := t[0][b := Some(h)]];
    assert t'[1..] == t[1..];
    Climb(sha, t', b)
  }

  /** Climbing after one change of the bottom level rebuilds exactly the tree of the new
      bottom level. A changed slot must have become non-null. */
  lemma {:induction false} ClimbRebuilds(sha: Digest, level: Level, b: nat, v: Slot)
    requires b < |level| && (v.Some? || level[b] == v)
    ensures Climb(sha, TreeOf(sha, level)[0 := level[b := v]], b) == TreeOf(sha, level[b := v])
    decreases |level|
  {
    var t, level' := TreeOf(sha, level), level[b := v];
    if |level| > 1 {
      var above, w := Grow(sha, level), Parent(sha, level', b / 2);
      assert Grow(sha, level') == above[b / 2 := w];
      assert above[b / 2] == Parent(sha, level, b / 2);
      ClimbRebuilds(sha, above, b / 2, w);
      assert t[0 := level'][1..] == TreeOf(sha, above);
      if w.None? {
        assert v.None? ==> level' == level;
        assert above[b / 2 := w] == above;
      }
    }
  }

  /** setHash on the tree of some leaves gives the tree of the updated leaves. */
  lemma SetHashRebuilds(sha: Digest, level: Level, b: nat, h: Hash)
    requires b < |level|
    ensures SetHash(sha, TreeOf(sha, level), b, h) == TreeOf(sha, level[b := Some(h)])
  {
    ClimbRebuilds(sha, level, b, Some(h));
  }

  // ---- Any order of writes

  datatype Write = Write(block: nat, hash: Hash)

  predicate InRange(writes: seq<Write>, n: nat) {
    forall i :: 0 <= i < |writes| ==> writes[i].block < n
  }

  function WriteAll(sha: Digest, t: Tree, writes: seq<Write>): (r: Tree)
    requires |t| >= 1 && Shaped(t, |t[0]|) && InRange(writes, |t[0]|)
    ensures |r| >= 1 && Shaped(r, |t[0]|)
    decreases |writes|
  {
    if writes == [] then t else
      WriteAll(sha, SetHash(sha, t, writes[0].block, writes[0].hash), writes[1..])
  }

  /** The last write to leaf b, or the given slot when there is none. */
  function LastWrite(writes: seq<Write>, b: nat, start: Slot): Slot {
    if writes == [] then start
    else LastWrite(writes[1..], b, if writes[0].block == b then Some(writes[0].hash) else start)
  }

  function NullLevel(n: nat): (level: Level)
    ensures |level| == n && forall i :: 0 <= i < n ==> level[i] == None
  {
    seq(n, _ => None)
  }

  lemma {:induction false} WritesRebuild(sha: Digest, level: Level, writes: seq<Write>)
    requires |level| >= 1 && InRange(writes, |level|)
    ensures WriteAll(sha, TreeOf(sha, level), writes)
         == TreeOf(sha, seq(|level|, b requires 0 <= b < |level| => LastWrite(writes, b, level[b])))
    decreases |writes|
  {
    var final := seq(|level|, b requires 0 <= b < |level| => LastWrite(writes, b, level[b]));
    if writes == [] {
      assert final == level;
    } else {
      var w := writes[0];
      var level' := level[w.block := Some(w.hash)];
      SetHashRebuilds(sha, level, w.block, w.hash);
      WritesRebuild(sha, level', writes[1..]);
      assert final == seq(|level'|, b requires 0 <= b < |level'| => LastWrite(writes[1..], b, level'[b]));
    }
  }

  /** From the null tree, after any writes in any order with overwrites: a node is null iff
      some leaf below it was never written, and otherwise it is the Merkle hash of the last
      hashes written below it. */
  lemma NodesAfterWrites(sha: Digest, n: nat, writes: seq<Write>, k: nat, i: nat)
    requires n >= 1 && InRange(writes, n)
    requires k < |TreeOf(sha, NullLevel(n))| && i < |TreeOf(sha, NullLevel(n))[k]|
    ensures var t, last := WriteAll(sha, TreeOf(sha, NullLevel(n)), writes),
                           seq(n, b requires 0 <= b < n => LastWrite(writes, b, None));
            var range := if First(k, i) <= Last(n, k, i) <= n then last[First(k, i)..Last(n, k, i)] else [];
            && k < |t| && i < |t[k]| && range != []
            && t[k][i] == if AllSet(range) then Some(TreeHash(sha, Values(range))) else None
  {
    var start := TreeOf(sha, NullLevel(n));
    var last := seq(n, b requires 0 <= b < n => LastWrite(writes, b, None));
    WritesRebuild(sha, NullLevel(n), writes);
    assert last == seq(n, b requires 0 <= b < n => LastWrite(writes, b, NullLevel(n)[b]));
    var t := TreeOf(sha, last);
    SameShape(start, t, n, k);
    NodeCoversRange(sha, last, k, i);
    TopDownMeaning(sha, last[First(k, i)..Last(n, k, i)]);
  }

  lemma {:induction false} SameShape(s: Tree, t: Tree, n: nat, k: nat)
    requires Shaped(s, n) && Shaped(t, n) && k < |s|
    ensures |s| == |t| && |s[k]| == |t[k]|
    decreases |s|
  {
    if n > 1 {
      SameShape(s[1..], t[1..], Up(n), if k > 0 then k - 1 else 0);
    }
  }

  // ---- One tree knows no more than another

  predicate LevelBelow(a: Level, b: Level) {
    |a| == |b| && forall i :: 0 <= i < |a| ==> a[i] == None || a[i] == b[i]
  }

  /** Every hash that a knows, b knows too and it is the same one. */
  predicate Below(a: Tree, b: Tree) {
    |a| == |b| && forall k :: 0 <= k < |a| ==> LevelBelow(a[k], b[k])
  }

  lemma BelowTails(a: Tree, b: Tree)
    requires |a| >= 1
    ensures Below(a, b) <==> |a| == |b| && LevelBelow(a[0], b[0]) && Below(a[1..], b[1..])
  {
    if |a| == |b| && LevelBelow(a[0], b[0]) && Below(a[1..], b[1..]) {
      forall k | 0 <= k < |a| ensures LevelBelow(a[k], b[k]) {
        assert k == 0 || (a[k] == a[1..][k - 1] && b[k] == b[1..][k - 1]);
      }
    }
  }

  lemma ParentBelow(sha: Digest, a: Level, b: Level, i: nat)
    requires LevelBelow(a, b) && 2 * i < |a|
    ensures Parent(sha, a, i) == None || Parent(sha, a, i) == Parent(sha, b, i)
  {
  }

  /** Climbing inside a tree that agrees with the tree over `truth` keeps agreeing, and
      forgets nothing. */
  lemma {:induction false} ClimbBelow(sha: Digest, t: Tree, truth: Level, b: nat)
    requires |truth| >= 1 && Shaped(t, |truth|) && b < |truth| && Below(t, TreeOf(sha, truth))
    ensures Below(t, Climb(sha, t, b)) && Below(Climb(sha, t, b), TreeOf(sha, truth))
    decreases |t|
  {
    var full := TreeOf(sha, truth);
    if |t| > 1 {
      BelowTails(t, full);
      ParentBelow(sha, t[0], truth, b / 2);
      var v := Parent(sha, t[0], b / 2);
      var above := t[1..][0 := if v.Some? then t[1][b / 2 := v] else t[1]];
      assert above[1..] == t[1..][1..];
      assert full[1..] == TreeOf(sha, Grow(sha, truth));
      ClimbBelow(sha, above, Grow(sha, truth), b / 2);
      assert Climb(sha, t, b)[1..] == Climb(sha, above, b / 2);
      BelowTails(Climb(sha, t, b), full);
      BelowTails(t[1..], full[1..]);
      BelowTails(above, Climb(sha, above, b / 2));
      BelowTails(t[1..], Climb(sha, above, b / 2));
      BelowTails(t, Climb(sha, t, b));
    }
  }

  lemma AboveMonotone(sha: Digest, s: Tree, t: Tree, truth: Level, i: nat)
    requires |truth| >= 2 && Shaped(s, |truth|) && Shaped(t, |truth|) && 2 * i < |truth|
    requires |s| >= 2 && |t| >= 2 && Below(s, t) && Below(t, TreeOf(sha, truth))
    ensures Below(Above(sha, s, i), Above(sha, t, i))
    ensures Below(Above(sha, t, i), TreeOf(sha, Grow(sha, truth)))
  {
    var full := TreeOf(sha, truth);
    BelowTails(s, t);
    BelowTails(t, full);
    ParentBelow(sha, s[0], t[0], i);
    ParentBelow(sha, t[0], truth, i);
    assert full[1..] == TreeOf(sha, Grow(sha, truth));
    assert LevelBelow(s[1], t[1]) && LevelBelow(t[1], full[1]);
  }

  /** Climbing from more knowledge ends with more knowledge, as long as both agree with
      the tree over `truth`. */
  lemma {:induction false} ClimbMonotone(sha: Digest, s: Tree, t: Tree, truth: Level, b: nat)
    requires |truth| >= 1 && Shaped(s, |truth|) && Shaped(t, |truth|) && b < |truth|
    requires Below(s, t) && Below(t, TreeOf(sha, truth))
    ensures Below(Climb(sha, s, b), Climb(sha, t, b))
    decreases |t|
  {
    if |t| > 1 {
      AboveMonotone(sha, s, t, truth, b / 2);
      ClimbMonotone(sha, Above(sha, s, b / 2), Above(sha, t, b / 2), Grow(sha, truth), b / 2);
      BelowTails(s, t);
      BelowTails(Climb(sha, s, b), Climb(sha, t, b));
    }
  }

  /** The tree of fewer known leaves is below the tree of more. */
  lemma {:induction false} TreeOfMonotone(sha: Digest, a: Level, b: Level)
    requires |a| >= 1 && LevelBelow(a, b)
    ensures Below(TreeOf(sha, a), TreeOf(sha, b))
    decreases |a|
  {
    if |a| > 1 {
      forall i | 0 <= i < Up(|a|)
        ensures Parent(sha, a, i) == None || Parent(sha, a, i) == Parent(sha, b, i)
      {
        ParentBelow(sha, a, b, i);
      }
      TreeOfMonotone(sha, Grow(sha, a), Grow(sha, b));
      BelowTails(TreeOf(sha, a), TreeOf(sha, b));
    }
  }

  // ---- Between the known leaves and the full tree

  /** t holds at least the tree of its own known leaves and nothing that contradicts the
      tree over `truth`. */
  predicate Between(sha: Digest, t: Tree, truth: Level) {
    && |truth| >= 1 && Shaped(t, |truth|)
    && Below(TreeOf(sha, t[0]), t) && Below(t, TreeOf(sha, truth))
  }

  lemma BelowTransitive(a: Tree, b: Tree, c: Tree)
    requires Below(a, b) && Below(b, c)
    ensures Below(a, c)
  {
    forall k | 0 <= k < |a| ensures LevelBelow(a[k], c[k]) {
      assert LevelBelow(a[k], b[k]) && LevelBelow(b[k], c[k]);
    }
  }

  lemma ReplaceBottom(a: Tree, b: Tree, x: Level, y: Level)
    requires |a| >= 1 && Below(a, b) && LevelBelow(x, y)
    ensures Below(a[0 := x], b[0 := y])
  {
    assert a[0 := x][1..] == a[1..] && b[0 := y][1..] == b[1..];
    BelowTails(a, b);
    BelowTails(a[0 := x], b[0 := y]);
  }

  /** setHash with the true hash of a leaf. */
  lemma SetHashBetween(sha: Digest, t: Tree, truth: Level, b: nat, h: Hash)
    requires Between(sha, t, truth) && b < |truth| && truth[b] == Some(h)
    ensures Between(sha, SetHash(sha, t, b, h), truth)
    ensures Below(t, SetHash(sha, t, b, h))
  {
    var known, level', full := TreeOf(sha, t[0]), t[0][b := Some(h)], TreeOf(sha, truth);
    var t' := t[0 := level'];
    assert t'[1..] == t[1..];
    BelowTails(t, full);
    ReplaceBottom(known, t, level', level');
    ReplaceBottom(t, full, level', truth);
    assert full[0 := truth] == full;
    ClimbBelow(sha, t', truth, b);
    assert known[0 := level'][1..] == known[1..];
    ClimbMonotone(sha, known[0 := level'], t', truth, b);
    ClimbRebuilds(sha, t[0], b, Some(h));
    ReplaceBottom(t, t, t[0], level');
    assert t[0 := t[0]] == t;
    BelowTransitive(t, t', Climb(sha, t', b));
  }
}
