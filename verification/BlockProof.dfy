/** Proofs that a block belongs to a file: the sibling list of hashList, the fold of
    checkBlock, and the graft of an accepted list into a partial tree. */
module BlockProof {
  import opened Hashes
  import opened Merkle
  import opened PartialTree

  /** Where a node stands under its parent. An orphan is promoted, not hashed. */
  datatype Side = LeftChild | RightChild | Orphan

  function SideOf(n: nat, b: nat): Side {
    if b % 2 == 1 then RightChild else if b + 1 < n then LeftChild else Orphan
  }

  /** The sides of the path from block b of n up to the root. */
  function Sides(n: nat, b: nat): (sides: seq<Side>)
    requires b < n
  {
    if n == 1 then [] else [SideOf(n, b)] + Sides(Up(n), b / 2)
  }

  function Sibling(b: nat): nat {
    if b % 2 == 0 then b + 1 else b - 1
  }

  lemma {:induction false} SidesDepth(t: Tree, n: nat, b: nat)
    requires Shaped(t, n) && b < n
    ensures |Sides(n, b)| == |t| - 1
    decreases |t|
  {
    if n > 1 {
      SidesDepth(t[1..], Up(n), b / 2);
    }
  }

  /** hashList: the sibling on every level, and a zero hash where there is none. */
  function HashList(t: Tree, b: nat): (list: seq<Slot>)
    requires |t| >= 1 && Shaped(t, |t[0]|)
    ensures |list| == |t| - 1
    decreases |t|
  {
    if |t| == 1 then [] else
      assert Shaped(t[1..], Up(|t[0]|));
      [if Sibling(b) < |t[0]| then t[0][Sibling(b)] else Some(ZERO_HASH)] + HashList(t[1..], b / 2)
  }

  function StepUp(sha: Digest, side: Side, h: Hash, sibling: Hash): Hash {
    match side
    case LeftChild => Combine(sha, h, sibling)
    case RightChild => Combine(sha, sibling, h)
    case Orphan => h
  }

  function Fold(sha: Digest, sides: seq<Side>, h: Hash, list: seq<Hash>): Hash
    requires |sides| == |list|
    decreases |list|
  {
    if |list| == 0 then h
    else Fold(sha, sides[1..], StepUp(sha, sides[0], h, list[0]), list[1..])
  }

  // ---- Completeness: a full tree's own list folds to its root

  lemma {:induction false} FullTreeHasNoNull(sha: Digest, level: Level, k: nat)
    requires |level| >= 1 && AllSet(level) && k < |TreeOf(sha, level)|
    ensures AllSet(TreeOf(sha, level)[k])
    decreases |level|
  {
    if k > 0 {
      FullTreeHasNoNull(sha, Grow(sha, level), k - 1);
    }
  }

  function SiblingSlot(level: Level, b: nat): Slot {
    if Sibling(b) < |level| then level[Sibling(b)] else Some(ZERO_HASH)
  }

  /** The path of a block, one level at a time. */
  lemma PathHead(sha: Digest, level: Level, b: nat)
    requires |level| >= 2 && b < |level|
    ensures HashList(TreeOf(sha, level), b)
         == [SiblingSlot(level, b)] + HashList(TreeOf(sha, Grow(sha, level)), b / 2)
    ensures Sides(|level|, b) == [SideOf(|level|, b)] + Sides(Up(|level|), b / 2)
    ensures Root(TreeOf(sha, level)) == Root(TreeOf(sha, Grow(sha, level)))
  {
    assert TreeOf(sha, level)[1..] == TreeOf(sha, Grow(sha, level));
  }

  lemma ParentIsStepUp(sha: Digest, level: Level, b: nat)
    requires |level| >= 2 && AllSet(level) && b < |level|
    ensures Parent(sha, level, b / 2)
         == Some(StepUp(sha, SideOf(|level|, b), level[b].value, SiblingSlot(level, b).value))
  {
    if b % 2 == 0 {
      assert 2 * (b / 2) == b;
    } else {
      assert 2 * (b / 2) + 1 == b;
    }
  }

  lemma ValuesHead(h: Hash, rest: Level)
    requires AllSet(rest)
    ensures AllSet([Some(h)] + rest) && Values([Some(h)] + rest) == [h] + Values(rest)
  {
  }

  lemma FoldHead(sha: Digest, side: Side, sides: seq<Side>, h: Hash, sibling: Hash, list: seq<Hash>)
    requires |sides| == |list|
    ensures Fold(sha, [side] + sides, h, [sibling] + list) == Fold(sha, sides, StepUp(sha, side, h, sibling), list)
  {
    assert ([side] + sides)[1..] == sides && ([sibling] + list)[1..] == list;
  }

  /** A full tree's list has no null entry, whatever the block. */
  lemma {:induction false} HashListSet(sha: Digest, level: Level, b: nat)
    requires |level| >= 1 && AllSet(level)
    ensures AllSet(HashList(TreeOf(sha, level), b))
    decreases |level|
  {
    if |level| > 1 {
      FullTreeHasNoNull(sha, level, 1);
      HashListSet(sha, Grow(sha, level), b / 2);
      assert TreeOf(sha, level)[1..] == TreeOf(sha, Grow(sha, level));
    }
  }

  lemma {:induction false} HashListFoldsToRoot(sha: Digest, level: Level, b: nat)
    requires |level| >= 1 && AllSet(level) && b < |level|
    ensures var list := HashList(TreeOf(sha, level), b);
            && AllSet(list) && |Sides(|level|, b)| == |list|
            && Root(TreeOf(sha, level)) == Some(Fold(sha, Sides(|level|, b), level[b].value, Values(list)))
    decreases |level|
  {
    if |level| > 1 {
      var above, sibling := Grow(sha, level), SiblingSlot(level, b);
      FullTreeHasNoNull(sha, level, 1);
      HashListFoldsToRoot(sha, above, b / 2);
      var rest := HashList(TreeOf(sha, above), b / 2);
      PathHead(sha, level, b);
      ValuesHead(sibling.value, rest);
      FoldHead(sha, SideOf(|level|, b), Sides(Up(|level|), b / 2), level[b].value, sibling.value, Values(rest));
      ParentIsStepUp(sha, level, b);
    }
  }

  // ---- Soundness: two proofs of one root agree, or name a collision

  /** Same block hash, and the same sibling wherever the path has one. */
  predicate ProofsAgree(sides: seq<Side>, h1: Hash, l1: seq<Hash>, h2: Hash, l2: seq<Hash>)
    requires |sides| == |l1| == |l2|
  {
    h1 == h2 && forall k :: 0 <= k < |sides| && sides[k] != Orphan ==> l1[k] == l2[k]
  }

  function Fed(side: Side, h: Hash, sibling: Hash): seq<byte> {
    if side == RightChild then sibling + h else h + sibling
  }

  function FedPair(side: Side, h1: Hash, s1: Hash, h2: Hash, s2: Hash): (seq<byte>, seq<byte>) {
    (Fed(side, h1, s1), Fed(side, h2, s2))
  }

  /** Walk two folds up together and return the first pair of different hasher inputs that
      give the same digest. */
  function FindCollision(sha: Digest, sides: seq<Side>, h1: Hash, l1: seq<Hash>,
                         h2: Hash, l2: seq<Hash>): (seq<byte>, seq<byte>)
    requires |sides| == |l1| == |l2|
    decreases |sides|
  {
    if |sides| == 0 then ([], [])
    else if sides[0] != Orphan && Collides(sha, FedPair(sides[0], h1, l1[0], h2, l2[0]))
      then FedPair(sides[0], h1, l1[0], h2, l2[0])
      else FindCollision(sha, sides[1..], StepUp(sha, sides[0], h1, l1[0]), l1[1..],
                         StepUp(sha, sides[0], h2, l2[0]), l2[1..])
  }

  lemma {:induction false} EqualFoldsAgreeOrCollide(sha: Digest, sides: seq<Side>,
                                                    h1: Hash, l1: seq<Hash>, h2: Hash, l2: seq<Hash>)
    requires |sides| == |l1| == |l2|
    requires Fold(sha, sides, h1, l1) == Fold(sha, sides, h2, l2)
    ensures ProofsAgree(sides, h1, l1, h2, l2)
         || Collides(sha, FindCollision(sha, sides, h1, l1, h2, l2))
    decreases |sides|
  {
    if |sides| > 0 {
      var side := sides[0];
      if side == Orphan || !Collides(sha, FedPair(side, h1, l1[0], h2, l2[0])) {
        EqualFoldsAgreeOrCollide(sha, sides[1..], StepUp(sha, side, h1, l1[0]), l1[1..],
                                 StepUp(sha, side, h2, l2[0]), l2[1..]);
        if ProofsAgree(sides[1..], StepUp(sha, side, h1, l1[0]), l1[1..],
                       StepUp(sha, side, h2, l2[0]), l2[1..]) {
          if side == LeftChild {
            ConcatInjective(h1, l1[0], h2, l2[0]);
          } else if side == RightChild {
            ConcatInjective(l1[0], h1, l2[0], h2);
          }
          forall k | 0 <= k < |sides| && sides[k] != Orphan ensures l1[k] == l2[k] {
            assert k == 0 || (sides[k] == sides[1..][k - 1] && l1[k] == l1[1..][k - 1] && l2[k] == l2[1..][k - 1]);
          }
        }
      }
    }
  }

  /** The list entry of an orphan level plays no part in the fold. */
  lemma {:induction false} AgreeingProofsFoldEqually(sha: Digest, sides: seq<Side>,
                                                     h1: Hash, l1: seq<Hash>, h2: Hash, l2: seq<Hash>)
    requires |sides| == |l1| == |l2| && ProofsAgree(sides, h1, l1, h2, l2)
    ensures Fold(sha, sides, h1, l1) == Fold(sha, sides, h2, l2)
    decreases |sides|
  {
    if |sides| > 0 {
      AgreeingProofsFoldEqually(sha, sides[1..], StepUp(sha, sides[0], h1, l1[0]), l1[1..],
                                StepUp(sha, sides[0], h2, l2[0]), l2[1..]);
    }
  }

  // ---- Grafting an accepted list into a partial tree

  function PutAt(level: Level, i: nat, h: Hash): (r: Level)
    ensures |r| == |level|
  {
    if i < |level| then level[i := Some(h)] else level
  }

  /** Write every list entry at its sibling's place, skipping levels where the node is an
      orphan. */
  function PutSiblings(t: Tree, b: nat, list: seq<Hash>): (r: Tree)
    requires |t| >= 1 && Shaped(t, |t[0]|) && b < |t[0]| && |list| == |t| - 1
    ensures |r| == |t| && Shaped(r, |t[0]|)
    decreases |t|
  {
    if |t| == 1 then t else
      assert Shaped(t[1..], Up(|t[0]|));
      var above := PutSiblings(t[1..], b / 2, list[1..]);
      assert ([PutAt(t[0], Sibling(b), list[0])] + above)[1..] == above;
      [PutAt(t[0], Sibling(b), list[0])] + above
  }

  /** What checkBlock does to the tree once the fold matched: set the block's hash, write
      the siblings above the bottom level, then set the sibling block's hash. */
  function Graft(sha: Digest, t: Tree, b: nat, h: Hash, list: seq<Hash>): (r: Tree)
    requires |t| >= 1 && Shaped(t, |t[0]|) && b < |t[0]| && |list| == |t| - 1
    ensures |r| == |t| && Shaped(r, |t[0]|)
    ensures r[0] == if |list| > 0 then PutAt(t[0][b := Some(h)], Sibling(b), list[0]) else t[0][b := Some(h)]
  {
    var t1 := SetHash(sha, t, b, h);
    if |list| == 0 then t1 else
      assert Shaped(t1[1..], Up(|t1[0]|));
      var above := PutSiblings(t1[1..], b / 2, list[1..]);
      var t2 := [t1[0]] + above;
      assert t2[1..] == above && Shaped(t2, |t2[0]|);
      if Sibling(b) < |t[0]| then SetHash(sha, t2, Sibling(b), list[0]) else t2
  }

  predicate Accepts(sha: Digest, t: Tree, b: nat, h: Hash, list: seq<Hash>)
    requires |t| >= 1 && Shaped(t, |t[0]|) && b < |t[0]|
  {
    && |list| == |t| - 1 == |Sides(|t[0]|, b)|
    && Root(t) == Some(Fold(sha, Sides(|t[0]|, b), h, list))
  }

  /** The block hash and the siblings that the true leaves give block b. */
  predicate Honest(sha: Digest, truth: Level, b: nat, h: Hash, list: seq<Hash>)
    requires b < |truth| && AllSet(truth) && |list| == |TreeOf(sha, truth)| - 1
  {
    var own := HashList(TreeOf(sha, truth), b);
    AllSet(own) && |Sides(|truth|, b)| == |own| && ProofsAgree(Sides(|truth|, b), h, list, truth[b].value, Values(own))
  }

  /** The part of an honest list above the bottom level is honest one level up. */
  lemma HonestAbove(sha: Digest, truth: Level, b: nat, list: seq<Hash>)
    requires |truth| >= 2 && AllSet(truth) && b < |truth|
    requires |list| == |TreeOf(sha, truth)| - 1 && Honest(sha, truth, b, truth[b].value, list)
    ensures AllSet(Grow(sha, truth))
    ensures |list| >= 1 && |list[1..]| == |TreeOf(sha, Grow(sha, truth))| - 1
    ensures Honest(sha, Grow(sha, truth), b / 2, Grow(sha, truth)[b / 2].value, list[1..])
    ensures Sibling(b) < |truth| ==> Some(list[0]) == truth[Sibling(b)]
  {
    var full, above := TreeOf(sha, truth), Grow(sha, truth);
    FullTreeHasNoNull(sha, truth, 1);
    HashListFoldsToRoot(sha, truth, b);
    HashListFoldsToRoot(sha, above, b / 2);
    PathHead(sha, truth, b);
    ValuesHead(SiblingSlot(truth, b).value, HashList(TreeOf(sha, above), b / 2));
    var sides, own := Sides(|truth|, b), Values(HashList(full, b));
    assert own[1..] == Values(HashList(TreeOf(sha, above), b / 2));
    forall k | 0 <= k < |sides[1..]| && sides[1..][k] != Orphan ensures list[1..][k] == own[1..][k] {
      assert sides[1..][k] == sides[k + 1];
    }
    assert Sibling(b) < |truth| ==> sides[0] != Orphan;
  }

  lemma {:induction false} PutSiblingsBetween(sha: Digest, s: Tree, t: Tree, truth: Level, b: nat, list: seq<Hash>)
    requires |truth| >= 1 && AllSet(truth) && Shaped(t, |truth|) && b < |truth|
    requires Below(s, t) && Below(t, TreeOf(sha, truth))
    requires |list| == |t| - 1 && Honest(sha, truth, b, truth[b].value, list)
    ensures Below(s, PutSiblings(t, b, list)) && Below(PutSiblings(t, b, list), TreeOf(sha, truth))
    decreases |t|
  {
    var full := TreeOf(sha, truth);
    if |t| > 1 {
      var above, r := Grow(sha, truth), PutSiblings(t, b, list);
      HonestAbove(sha, truth, b, list);
      BelowTails(s, t);
      BelowTails(t, full);
      PutSiblingsBetween(sha, s[1..], t[1..], above, b / 2, list[1..]);
      assert r[1..] == PutSiblings(t[1..], b / 2, list[1..]);
      BelowTails(s, r);
      BelowTails(r, full);
    }
  }

  lemma BelowReflexive(t: Tree)
    ensures Below(t, t)
  {
  }

  /** The write-back keeps a tree between its known leaves and the full tree. */
  lemma WrittenBetween(sha: Digest, t1: Tree, truth: Level, b: nat, list: seq<Hash>)
    requires Between(sha, t1, truth) && AllSet(truth) && b < |truth| && |list| > 0
    requires |list| == |t1| - 1 == |TreeOf(sha, truth)| - 1 && Honest(sha, truth, b, truth[b].value, list)
    ensures Shaped(t1[1..], Up(|truth|))
    ensures var t2 := [t1[0]] + PutSiblings(t1[1..], b / 2, list[1..]);
            Between(sha, t2, truth) && Below(t1, t2)
  {
    var full, known := TreeOf(sha, truth), TreeOf(sha, t1[0]);
    var above := PutSiblings(t1[1..], b / 2, list[1..]);
    var t2 := [t1[0]] + above;
    assert t2[1..] == above;
    HonestAbove(sha, truth, b, list);
    BelowTails(known, t1);
    BelowTails(t1, full);
    BelowReflexive(t1[1..]);
    PutSiblingsBetween(sha, known[1..], t1[1..], Grow(sha, truth), b / 2, list[1..]);
    PutSiblingsBetween(sha, t1[1..], t1[1..], Grow(sha, truth), b / 2, list[1..]);
    BelowTails(known, t2);
    BelowTails(t2, full);
    BelowTails(t1, t2);
  }

  /** Grafting an honest block: the tree stays between its known leaves and the full tree,
      and forgets nothing. */
  lemma GraftBetween(sha: Digest, t: Tree, truth: Level, b: nat, h: Hash, list: seq<Hash>)
    requires Between(sha, t, truth) && AllSet(truth) && b < |truth|
    requires |list| == |t| - 1 == |TreeOf(sha, truth)| - 1 && Honest(sha, truth, b, h, list)
    ensures Between(sha, Graft(sha, t, b, h, list), truth)
    ensures Below(t, Graft(sha, t, b, h, list))
  {
    var t1 := SetHash(sha, t, b, h);
    SetHashBetween(sha, t, truth, b, h);
    if |list| > 0 {
      WrittenBetween(sha, t1, truth, b, list);
      var t2 := [t1[0]] + PutSiblings(t1[1..], b / 2, list[1..]);
      BelowTransitive(t, t1, t2);
      if Sibling(b) < |truth| {
        HonestAbove(sha, truth, b, list);
        SetHashBetween(sha, t2, truth, Sibling(b), list[0]);
        BelowTransitive(t, t2, SetHash(sha, t2, Sibling(b), list[0]));
      }
    }
  }

  lemma {:induction false} HashListBelow(s: Tree, t: Tree, b: nat)
    requires |s| >= 1 && Shaped(s, |s[0]|) && Shaped(t, |s[0]|) && Below(s, t)
    ensures LevelBelow(HashList(s, b), HashList(t, b))
    decreases |s|
  {
    if |s| > 1 {
      BelowTails(s, t);
      assert Shaped(s[1..], Up(|s[0]|)) && Shaped(t[1..], Up(|s[0]|));
      HashListBelow(s[1..], t[1..], b / 2);
    }
  }

  lemma {:induction false} PutSiblingsKnown(t: Tree, b: nat, list: seq<Hash>)
    requires |t| >= 1 && Shaped(t, |t[0]|) && b < |t[0]| && |list| == |t| - 1
    ensures AllSet(HashList(PutSiblings(t, b, list), b))
    decreases |t|
  {
    if |t| > 1 {
      assert Shaped(t[1..], Up(|t[0]|));
      var above := PutSiblings(t[1..], b / 2, list[1..]);
      PutSiblingsKnown(t[1..], b / 2, list[1..]);
      assert PutSiblings(t, b, list)[1..] == above;
    }
  }

  lemma GraftListKnown(sha: Digest, t: Tree, truth: Level, b: nat, h: Hash, list: seq<Hash>)
    requires Between(sha, t, truth) && AllSet(truth) && b < |truth| && |list| > 0
    requires |list| == |t| - 1 == |TreeOf(sha, truth)| - 1 && Honest(sha, truth, b, h, list)
    ensures AllSet(HashList(Graft(sha, t, b, h, list), b))
  {
    var g, t1 := Graft(sha, t, b, h, list), SetHash(sha, t, b, h);
    var above := PutSiblings(t1[1..], b / 2, list[1..]);
    PutSiblingsKnown(t1[1..], b / 2, list[1..]);
    GraftTailGrows(sha, t, truth, b, h, list);
    HashListBelow(above, g[1..], b / 2);
    assert HashList(g, b) == [SiblingSlot(g[0], b)] + HashList(g[1..], b / 2);
    assert SiblingSlot(g[0], b).Some?;
  }

  lemma FullBelowEqual(a: Level, b: Level)
    requires AllSet(a) && LevelBelow(a, b)
    ensures a == b
  {
  }

  /** After grafting an honest block the tree holds that block's whole list: the receiver
      could now serve the block itself. */
  lemma GraftKnowsList(sha: Digest, t: Tree, truth: Level, b: nat, h: Hash, list: seq<Hash>)
    requires Between(sha, t, truth) && AllSet(truth) && b < |truth|
    requires |list| == |t| - 1 == |TreeOf(sha, truth)| - 1 && Honest(sha, truth, b, h, list)
    ensures HashList(Graft(sha, t, b, h, list), b) == HashList(TreeOf(sha, truth), b)
  {
    var g, full := Graft(sha, t, b, h, list), TreeOf(sha, truth);
    GraftBetween(sha, t, truth, b, h, list);
    HashListBelow(g, full, b);
    if |list| > 0 {
      GraftListKnown(sha, t, truth, b, h, list);
    }
    FullBelowEqual(HashList(g, b), HashList(full, b));
  }

  /** The last step of the graft forgets nothing of the written siblings. */
  lemma GraftTailGrows(sha: Digest, t: Tree, truth: Level, b: nat, h: Hash, list: seq<Hash>)
    requires Between(sha, t, truth) && AllSet(truth) && b < |truth| && |list| > 0
    requires |list| == |t| - 1 == |TreeOf(sha, truth)| - 1 && Honest(sha, truth, b, h, list)
    ensures Below(PutSiblings(SetHash(sha, t, b, h)[1..], b / 2, list[1..]), Graft(sha, t, b, h, list)[1..])
  {
    var full, t1 := TreeOf(sha, truth), SetHash(sha, t, b, h);
    SetHashBetween(sha, t, truth, b, h);
    var above := PutSiblings(t1[1..], b / 2, list[1..]);
    var t2 := [t1[0]] + above;
    assert t2[1..] == above;
    WrittenBetween(sha, t1, truth, b, list);
    if Sibling(b) < |truth| {
      HonestAbove(sha, truth, b, list);
      SetHashBetween(sha, t2, truth, Sibling(b), list[0]);
      BelowTails(t2, SetHash(sha, t2, Sibling(b), list[0]));
    } else {
      BelowTails(t2, t2);
      assert Below(t2, t2) by { BelowReflexive(t2); }
    }
  }

  /** Every node from block b up to the root is known. */
  predicate PathKnown(t: Tree, b: nat)
    requires |t| >= 1 && Shaped(t, |t[0]|) && b < |t[0]|
    decreases |t|
  {
    t[0][b].Some? && (|t| == 1 || (assert Shaped(t[1..], Up(|t[0]|)); PathKnown(t[1..], b / 2)))
  }

  lemma {:induction false} ClimbKnowsPath(sha: Digest, t: Tree, b: nat)
    requires |t| >= 1 && Shaped(t, |t[0]|) && b < |t[0]|
    requires t[0][b].Some? && AllSet(HashList(t, b))
    ensures PathKnown(Climb(sha, t, b), b)
    decreases |t|
  {
    if |t| > 1 {
      assert Shaped(t[1..], Up(|t[0]|));
      assert HashList(t, b)[0] == SiblingSlot(t[0], b) && HashList(t, b)[1..] == HashList(t[1..], b / 2);
      ParentKnown(sha, t[0], b);
      var above := t[1..][0 := t[1][b / 2 := Parent(sha, t[0], b / 2)]];
      assert above[1..] == t[1..][1..];
      OwnNodeNotListed(t[1..], b / 2, Parent(sha, t[0], b / 2));
      ClimbKnowsPath(sha, above, b / 2);
      assert Climb(sha, t, b)[1..] == Climb(sha, above, b / 2);
    }
  }

  lemma ParentKnown(sha: Digest, level: Level, b: nat)
    requires b < |level| && level[b].Some? && SiblingSlot(level, b).Some?
    ensures Parent(sha, level, b / 2).Some?
  {
    assert if b % 2 == 0 then 2 * (b / 2) == b else 2 * (b / 2) + 1 == b;
  }

  /** A node is no part of its own sibling list. */
  lemma OwnNodeNotListed(t: Tree, b: nat, v: Slot)
    requires |t| >= 1 && Shaped(t, |t[0]|) && b < |t[0]|
    ensures Shaped(t[0 := t[0][b := v]], |t[0]|)
    ensures HashList(t[0 := t[0][b := v]], b) == HashList(t, b)
  {
    assert t[0 := t[0][b := v]][1..] == t[1..];
  }

  /** After a graft every node from a block with a sibling up to the root is known, honest
      or not; for a block without one only the siblings are. */
  lemma GraftKnowsPath(sha: Digest, t: Tree, b: nat, h: Hash, list: seq<Hash>)
    requires |t| >= 1 && Shaped(t, |t[0]|) && b < |t[0]| && |list| == |t| - 1
    ensures |list| == 0 || Sibling(b) < |t[0]| ==> PathKnown(Graft(sha, t, b, h, list), b)
  {
    if |list| > 0 && Sibling(b) < |t[0]| {
      var t1 := SetHash(sha, t, b, h);
      assert Shaped(t1[1..], Up(|t1[0]|));
      var above, s := PutSiblings(t1[1..], b / 2, list[1..]), Sibling(b);
      var t2 := [t1[0]] + above;
      var t3 := t2[0 := t2[0][s := Some(list[0])]];
      assert t2[1..] == above && t3[1..] == above;
      assert s / 2 == b / 2 && Sibling(s) == b;
      PutSiblingsKnown(t1[1..], b / 2, list[1..]);
      assert HashList(t3, s) == [t3[0][b]] + HashList(above, b / 2);
      ClimbKnowsPath(sha, t3, s);
      assert Climb(sha, t3, s)[0] == t3[0];
    }
  }
}
