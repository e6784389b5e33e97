/** Whole downloads: any sequence of checkBlock calls, starting from a known root hash. */
module Downloads {
  import opened Hashes
  import opened Merkle
  import opened PartialTree
  import opened BlockProof
  import opened Files

  datatype Call = Call(block: nat, hash: Hash, list: seq<Hash>)

  datatype Progress = Progress(tree: Tree, blocks: seq<bool>)

  /** A file of n blocks of which only the root hash is known. */
  function Start(n: nat, root: Hash): Progress
    requires n >= 1
  {
    Progress(InitialTree(n, Some(root)), seq(n, _ => false))
  }

  predicate Fits(p: Progress, n: nat) {
    |p.blocks| == n && Shaped(p.tree, n)
  }

  /** File.CheckBlock on values. */
  function Check(sha: Digest, p: Progress, c: Call): (p': Progress)
    requires Fits(p, |p.blocks|) && c.block < |p.blocks|
    ensures Fits(p', |p.blocks|)
  {
    if Accepts(sha, p.tree, c.block, c.hash, c.list)
    then Progress(Graft(sha, p.tree, c.block, c.hash, c.list), p.blocks[c.block := true])
    else p
  }

  predicate CallsInRange(calls: seq<Call>, n: nat) {
    forall i :: 0 <= i < |calls| ==> calls[i].block < n
  }

  function Run(sha: Digest, p: Progress, calls: seq<Call>): (p': Progress)
    requires Fits(p, |p.blocks|) && CallsInRange(calls, |p.blocks|)
    ensures Fits(p', |p.blocks|)
    decreases |calls|
  {
    if calls == [] then p else
      Run(sha, Check(sha, p, calls[0]), calls[1..])
  }

  /** The call carries the true hash of its block and, on every level that has one, the
      true sibling. */
  predicate HonestCall(sha: Digest, leaves: seq<Hash>, c: Call)
    requires c.block < |leaves|
  {
    && |c.list| == |TreeOf(sha, Somes(leaves))| - 1
    && Honest(sha, Somes(leaves), c.block, c.hash, c.list)
  }

  /** The two hasher inputs at which the call's fold and the true one first meet. */
  function Evidence(sha: Digest, leaves: seq<Hash>, c: Call): (seq<byte>, seq<byte>)
    requires c.block < |leaves|
  {
    var own := HashList(TreeOf(sha, Somes(leaves)), c.block);
    var sides := Sides(|leaves|, c.block);
    if AllSet(own) && |sides| == |own| == |c.list|
    then FindCollision(sha, sides, c.hash, c.list, leaves[c.block], Values(own))
    else ([], [])
  }

  /** No call of the run exhibits a collision of the digest. */
  predicate NoForgery(sha: Digest, leaves: seq<Hash>, calls: seq<Call>)
    requires CallsInRange(calls, |leaves|)
  {
    forall i :: 0 <= i < |calls| ==> !Collides(sha, Evidence(sha, leaves, calls[i]))
  }

  /** What holds all through a download of the file with these leaves. */
  predicate Safe(sha: Digest, leaves: seq<Hash>, p: Progress) {
    && |leaves| >= 1 && Fits(p, |leaves|)
    && Between(sha, p.tree, Somes(leaves))
    && Root(p.tree) == Some(TreeHash(sha, leaves))
    && forall b :: 0 <= b < |leaves| && p.blocks[b] ==> p.tree[0][b] == Some(leaves[b])
  }

  // ---- The first state is safe

  lemma {:induction false} NullTreeBelow(sha: Digest, t: Tree, n: nat)
    requires n >= 1 && Shaped(t, n)
    ensures Below(TreeOf(sha, NullLevel(n)), t)
    decreases n
  {
    if n > 1 {
      assert Grow(sha, NullLevel(n)) == NullLevel(Up(n));
      NullTreeBelow(sha, t[1..], Up(n));
      BelowTails(TreeOf(sha, NullLevel(n)), t);
    }
  }

  lemma {:induction false} InitialBelow(sha: Digest, truth: Level)
    requires |truth| >= 1
    ensures Below(InitialTree(|truth|, TopDown(sha, truth)), TreeOf(sha, truth))
    ensures Root(InitialTree(|truth|, TopDown(sha, truth))) == TopDown(sha, truth)
    decreases |truth|
  {
    if |truth| > 1 {
      GrowKeepsTopDown(sha, truth);
      InitialBelow(sha, Grow(sha, truth));
      BelowTails(InitialTree(|truth|, TopDown(sha, truth)), TreeOf(sha, truth));
    }
  }

  lemma StartIsSafe(sha: Digest, leaves: seq<Hash>)
    requires |leaves| >= 1
    ensures Safe(sha, leaves, Start(|leaves|, TreeHash(sha, leaves)))
  {
    var truth, p := Somes(leaves), Start(|leaves|, TreeHash(sha, leaves));
    TopDownMeaning(sha, truth);
    assert Values(truth) == leaves;
    InitialBelow(sha, truth);
    if |leaves| > 1 {
      NullTreeBelow(sha, p.tree, |leaves|);
    } else {
      assert TreeOf(sha, p.tree[0]) == p.tree;
    }
  }

  // ---- Every call keeps safety

  /** At a safe state a call that exhibits no collision is accepted iff it is honest. */
  lemma AcceptedIffHonest(sha: Digest, leaves: seq<Hash>, p: Progress, c: Call)
    requires Safe(sha, leaves, p) && c.block < |leaves|
    requires !Collides(sha, Evidence(sha, leaves, c))
    ensures Accepts(sha, p.tree, c.block, c.hash, c.list) <==> HonestCall(sha, leaves, c)
  {
    var truth := Somes(leaves);
    var own, sides := HashList(TreeOf(sha, truth), c.block), Sides(|leaves|, c.block);
    HashListFoldsToRoot(sha, truth, c.block);
    RootIsTreeHash(sha, leaves);
    SidesDepth(p.tree, |leaves|, c.block);
    if |c.list| == |sides| {
      if Accepts(sha, p.tree, c.block, c.hash, c.list) {
        EqualFoldsAgreeOrCollide(sha, sides, c.hash, c.list, leaves[c.block], Values(own));
      }
      if HonestCall(sha, leaves, c) {
        AgreeingProofsFoldEqually(sha, sides, c.hash, c.list, leaves[c.block], Values(own));
      }
    }
  }

  lemma RootKept(s: Tree, t: Tree)
    requires |s| >= 1 && |t| >= 1 && Shaped(s, |s[0]|) && Shaped(t, |t[0]|) && Below(s, t)
    ensures Root(s) == None || Root(s) == Root(t)
  {
    RootIsLast(s);
    RootIsLast(t);
    assert LevelBelow(s[|s| - 1], t[|s| - 1]);
  }

  lemma CheckKeepsSafe(sha: Digest, leaves: seq<Hash>, p: Progress, c: Call)
    requires Safe(sha, leaves, p) && c.block < |leaves|
    requires !Collides(sha, Evidence(sha, leaves, c))
    ensures Safe(sha, leaves, Check(sha, p, c))
    ensures Below(p.tree, Check(sha, p, c).tree)
    ensures Check(sha, p, c).blocks ==
            if HonestCall(sha, leaves, c) then p.blocks[c.block := true] else p.blocks
  {
    var truth, p' := Somes(leaves), Check(sha, p, c);
    AcceptedIffHonest(sha, leaves, p, c);
    BelowTails(p.tree, p.tree);
    if HonestCall(sha, leaves, c) {
      GraftBetween(sha, p.tree, truth, c.block, c.hash, c.list);
      RootKept(p.tree, p'.tree);
      assert LevelBelow(p.tree[0], p'.tree[0]) && LevelBelow(p'.tree[0], truth);
      forall b | 0 <= b < |leaves| && p'.blocks[b] ensures p'.tree[0][b] == Some(leaves[b]) {
        assert b == c.block || p.blocks[b];
      }
    }
  }

  /** Some call brought block b honestly. */
  ghost predicate Brought(sha: Digest, leaves: seq<Hash>, calls: seq<Call>, b: nat)
    requires CallsInRange(calls, |leaves|)
  {
    exists i :: 0 <= i < |calls| && calls[i].block == b && HonestCall(sha, leaves, calls[i])
  }

  lemma BroughtHead(sha: Digest, leaves: seq<Hash>, calls: seq<Call>, b: nat)
    requires CallsInRange(calls, |leaves|) && calls != []
    ensures Brought(sha, leaves, calls, b) <==>
            (calls[0].block == b && HonestCall(sha, leaves, calls[0])) || Brought(sha, leaves, calls[1..], b)
  {
    var rest := calls[1..];
    if i :| 0 <= i < |calls| && calls[i].block == b && HonestCall(sha, leaves, calls[i]) {
      assert i == 0 || rest[i - 1] == calls[i];
    }
    if i :| 0 <= i < |rest| && rest[i].block == b && HonestCall(sha, leaves, rest[i]) {
      assert calls[i + 1] == rest[i];
    }
  }

  lemma NoForgeryHead(sha: Digest, leaves: seq<Hash>, calls: seq<Call>)
    requires CallsInRange(calls, |leaves|) && NoForgery(sha, leaves, calls) && calls != []
    ensures !Collides(sha, Evidence(sha, leaves, calls[0]))
    ensures NoForgery(sha, leaves, calls[1..])
  {
  }

  /** Safety over whole runs, and exactly which blocks a run marks: those for which some
      call was honest. */
  lemma {:induction false} RunKeepsSafe(sha: Digest, leaves: seq<Hash>, p: Progress, calls: seq<Call>)
    requires Safe(sha, leaves, p) && CallsInRange(calls, |leaves|) && NoForgery(sha, leaves, calls)
    ensures Safe(sha, leaves, Run(sha, p, calls)) && Below(p.tree, Run(sha, p, calls).tree)
    ensures forall b :: 0 <= b < |leaves| ==>
              (Run(sha, p, calls).blocks[b] <==> p.blocks[b] || Brought(sha, leaves, calls, b))
    decreases |calls|
  {
    BelowReflexive(p.tree);
    if calls != [] {
      var p', rest := Check(sha, p, calls[0]), calls[1..];
      NoForgeryHead(sha, leaves, calls);
      CheckKeepsSafe(sha, leaves, p, calls[0]);
      RunKeepsSafe(sha, leaves, p', rest);
      BelowTransitive(p.tree, p'.tree, Run(sha, p', rest).tree);
      forall b | 0 <= b < |leaves|
        ensures Run(sha, p, calls).blocks[b] <==> p.blocks[b] || Brought(sha, leaves, calls, b)
      {
        BroughtHead(sha, leaves, calls, b);
      }
    }
  }

  /** A block brought honestly can be served from then on: its list stays complete. */
  lemma {:induction false} BroughtCanBeServed(sha: Digest, leaves: seq<Hash>, p: Progress, calls: seq<Call>, b: nat)
    requires Safe(sha, leaves, p) && CallsInRange(calls, |leaves|) && NoForgery(sha, leaves, calls)
    requires b < |leaves| && Brought(sha, leaves, calls, b)
    ensures Shaped(Run(sha, p, calls).tree, |leaves|)
    ensures HashList(Run(sha, p, calls).tree, b) == HashList(TreeOf(sha, Somes(leaves)), b)
    decreases |calls|
  {
    var p', rest := Check(sha, p, calls[0]), calls[1..];
    NoForgeryHead(sha, leaves, calls);
    CheckKeepsSafe(sha, leaves, p, calls[0]);
    BroughtHead(sha, leaves, calls, b);
    if Brought(sha, leaves, rest, b) {
      BroughtCanBeServed(sha, leaves, p', rest, b);
    } else {
      AcceptedIffHonest(sha, leaves, p, calls[0]);
      GraftKnowsList(sha, p.tree, Somes(leaves), b, calls[0].hash, calls[0].list);
      RunKeepsSafe(sha, leaves, p', rest);
      ListStays(sha, leaves, p'.tree, Run(sha, p', rest).tree, b);
    }
  }

  lemma ListStays(sha: Digest, leaves: seq<Hash>, s: Tree, t: Tree, b: nat)
    requires |leaves| >= 1 && Shaped(s, |leaves|) && Shaped(t, |leaves|)
    requires Below(s, t) && HashList(s, b) == HashList(TreeOf(sha, Somes(leaves)), b)
    ensures HashList(t, b) == HashList(TreeOf(sha, Somes(leaves)), b)
  {
    HashListSet(sha, Somes(leaves), b);
    HashListBelow(s, t, b);
    FullBelowEqual(HashList(s, b), HashList(t, b));
  }

  // ---- The theorems about a download

  /** From the root hash alone, whatever calls arrive: either one of them exhibits a
      collision of the digest, or every known node is the true one, the root never changes,
      a marked block has its true hash, and once every block is marked the whole tree is
      the one a complete file has. */
  lemma DownloadIsSafe(sha: Digest, leaves: seq<Hash>, calls: seq<Call>)
    requires |leaves| >= 1 && CallsInRange(calls, |leaves|)
    ensures var p := Run(sha, Start(|leaves|, TreeHash(sha, leaves)), calls);
            || !NoForgery(sha, leaves, calls)
            || (&& Below(p.tree, TreeOf(sha, Somes(leaves)))
                && Root(p.tree) == Some(TreeHash(sha, leaves))
                && (forall b :: 0 <= b < |leaves| && p.blocks[b] ==> p.tree[0][b] == Some(leaves[b]))
                && ((forall b :: 0 <= b < |leaves| ==> p.blocks[b]) ==> p.tree == TreeOf(sha, Somes(leaves))))
  {
    var start := Start(|leaves|, TreeHash(sha, leaves));
    if NoForgery(sha, leaves, calls) {
      StartIsSafe(sha, leaves);
      RunKeepsSafe(sha, leaves, start, calls);
      var p, truth := Run(sha, start, calls), Somes(leaves);
      if forall b :: 0 <= b < |leaves| ==> p.blocks[b] {
        assert p.tree[0] == truth;
        BothBelow(p.tree, TreeOf(sha, truth));
      }
    }
  }

  lemma BothBelow(s: Tree, t: Tree)
    requires Below(s, t) && Below(t, s)
    ensures s == t
  {
    forall k | 0 <= k < |s| ensures s[k] == t[k] {
      assert LevelBelow(s[k], t[k]) && LevelBelow(t[k], s[k]);
    }
  }

  /** The list that a peer with the complete file sends for block b. */
  function OwnList(sha: Digest, leaves: seq<Hash>, b: nat): seq<Hash>
    requires |leaves| >= 1
  {
    HashListSet(sha, Somes(leaves), b);
    Values(HashList(TreeOf(sha, Somes(leaves)), b))
  }

  /** The block hash and list of a peer with the complete file. */
  function OwnCall(sha: Digest, leaves: seq<Hash>, b: nat): Call
    requires b < |leaves|
  {
    Call(b, leaves[b], OwnList(sha, leaves, b))
  }

  lemma OwnCallIsHonest(sha: Digest, leaves: seq<Hash>, b: nat)
    requires b < |leaves|
    ensures HonestCall(sha, leaves, OwnCall(sha, leaves, b))
    ensures !Collides(sha, Evidence(sha, leaves, OwnCall(sha, leaves, b)))
  {
    HashListFoldsToRoot(sha, Somes(leaves), b);
    NoCollisionWithItself(sha, Sides(|leaves|, b), leaves[b], OwnCall(sha, leaves, b).list);
  }

  lemma {:induction false} NoCollisionWithItself(sha: Digest, sides: seq<Side>, h: Hash, list: seq<Hash>)
    requires |sides| == |list|
    ensures !Collides(sha, FindCollision(sha, sides, h, list, h, list))
    decreases |list|
  {
    if |list| > 0 {
      NoCollisionWithItself(sha, sides[1..], StepUp(sha, sides[0], h, list[0]), list[1..]);
    }
  }

  /** Every block of a complete peer, in any order and among any calls that exhibit no
      collision, completes the download with the peer's tree. */
  lemma DownloadCompletes(sha: Digest, leaves: seq<Hash>, calls: seq<Call>)
    requires |leaves| >= 1 && CallsInRange(calls, |leaves|) && NoForgery(sha, leaves, calls)
    requires forall b :: 0 <= b < |leaves| ==> OwnCall(sha, leaves, b) in calls
    ensures var p := Run(sha, Start(|leaves|, TreeHash(sha, leaves)), calls);
            && (forall b :: 0 <= b < |leaves| ==> p.blocks[b])
            && p.tree == TreeOf(sha, Somes(leaves))
  {
    var start := Start(|leaves|, TreeHash(sha, leaves));
    StartIsSafe(sha, leaves);
    RunKeepsSafe(sha, leaves, start, calls);
    forall b | 0 <= b < |leaves| ensures Run(sha, start, calls).blocks[b] {
      var c := OwnCall(sha, leaves, b);
      OwnCallIsHonest(sha, leaves, b);
      var i :| 0 <= i < |calls| && calls[i] == c;
      assert calls[i].block == b && HonestCall(sha, leaves, calls[i]);
      assert Brought(sha, leaves, calls, b);
    }
    DownloadIsSafe(sha, leaves, calls);
  }
}
