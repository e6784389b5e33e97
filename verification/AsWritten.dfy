/** checkBlock exactly as File.cpp has it, next to the repaired form of BlockProof: it wants
    one hash more than hashList sends, and it hashes and writes on orphan levels too. */
module AsWritten {
  import opened Hashes
  import opened Merkle
  import opened PartialTree
  import opened BlockProof
  import opened FileFormat

  /** The written fold looks only at the parity of the index: an orphan counts as a left
      child. */
  function ParitySides(len: nat, b: nat): (sides: seq<Side>)
    ensures |sides| == len
  {
    if len == 0 then [] else [if b % 2 == 0 then LeftChild else RightChild] + ParitySides(len - 1, b / 2)
  }

  /** The write-back indexes a sibling on each of the lowest `count` levels. */
  predicate SiblingsExist(t: Tree, b: nat, count: nat)
    requires |t| >= 1 && Shaped(t, |t[0]|) && b < |t[0]|
    ensures SiblingsExist(t, b, count) ==> count < |t|
    decreases |t|
  {
    count == 0 ||
    (Sibling(b) < |t[0]| && (assert Shaped(t[1..], Up(|t[0]|)); SiblingsExist(t[1..], b / 2, count - 1)))
  }

  datatype Outcome = Rejected | Accepted(tree: Tree) | OutOfRange

  /** `wanted` is the list length asked for; the source asks for the number of levels. The
      block number is not tested: only its parities are folded. An index past the end of a
      level, undefined in C++, is the outcome OutOfRange. */
  function CheckBlock(sha: Digest, t: Tree, wanted: nat, b: nat, h: Hash, list: seq<Hash>): Outcome
    requires |t| >= 1 && Shaped(t, |t[0]|)
    requires wanted == |t| || wanted == |t| - 1
  {
    if |list| != wanted then Rejected
    else if Root(t) != Some(Fold(sha, ParitySides(|list|, b), h, list)) then Rejected
    else if b >= |t[0]| || !SiblingsExist(t, b, |list|) then OutOfRange
    else Accepted(Graft(sha, t, b, h, list))
  }

  /** No tree, block, hash and list make the written checkBlock return true within bounds:
      what it does not reject it answers by indexing past the end of a level. */
  lemma NeverAccepts(sha: Digest, t: Tree, b: nat, h: Hash, list: seq<Hash>)
    requires |t| >= 1 && Shaped(t, |t[0]|)
    ensures !CheckBlock(sha, t, |t|, b, h, list).Accepted?
    ensures CheckBlock(sha, t, |t|, b, h, list) == OutOfRange <==>
            |list| == |t| && Root(t) == Some(Fold(sha, ParitySides(|list|, b), h, list))
    ensures AllSet(HashList(t, b)) ==>
              CheckBlock(sha, t, |t|, b, h, Values(HashList(t, b))) == Rejected
  {
  }

  lemma {:induction false} SiblingsExistIffNoOrphan(t: Tree, b: nat)
    requires |t| >= 1 && Shaped(t, |t[0]|) && b < |t[0]|
    ensures SiblingsExist(t, b, |t| - 1) <==> Orphan !in Sides(|t[0]|, b)
    ensures Orphan !in Sides(|t[0]|, b) ==> ParitySides(|t| - 1, b) == Sides(|t[0]|, b)
    decreases |t|
  {
    if |t| > 1 {
      var n := |t[0]|;
      assert Shaped(t[1..], Up(n));
      SiblingsExistIffNoOrphan(t[1..], b / 2);
      assert Sides(n, b) == [SideOf(n, b)] + Sides(Up(n), b / 2);
    }
  }

  lemma LengthFixedIsRepaired(sha: Digest, t: Tree, b: nat, h: Hash, list: seq<Hash>)
    requires |t| >= 1 && Shaped(t, |t[0]|) && b < |t[0]| && Orphan !in Sides(|t[0]|, b)
    ensures CheckBlock(sha, t, |t| - 1, b, h, list) ==
            if Accepts(sha, t, b, h, list) then Accepted(Graft(sha, t, b, h, list)) else Rejected
  {
    SiblingsExistIffNoOrphan(t, b);
    SidesDepth(t, |t[0]|, b);
  }

  lemma LengthFixedStillRefuses(sha: Digest, t: Tree, b: nat, h: Hash, list: seq<Hash>)
    requires |t| >= 1 && Shaped(t, |t[0]|) && b < |t[0]| && Orphan in Sides(|t[0]|, b)
    ensures !CheckBlock(sha, t, |t| - 1, b, h, list).Accepted?
  {
    SiblingsExistIffNoOrphan(t, b);
  }

  /** Were only the length test right, checkBlock would be the repaired one exactly on the
      paths without an orphan level; on the others, and for block numbers out of range, it
      could still never return true. */
  lemma LengthFixedIsRepairedIffNoOrphan(sha: Digest, t: Tree, b: nat, h: Hash, list: seq<Hash>)
    requires |t| >= 1 && Shaped(t, |t[0]|)
    ensures b < |t[0]| && Orphan !in Sides(|t[0]|, b) ==>
              CheckBlock(sha, t, |t| - 1, b, h, list) ==
              if Accepts(sha, t, b, h, list) then Accepted(Graft(sha, t, b, h, list)) else Rejected
    ensures b >= |t[0]| || Orphan in Sides(|t[0]|, b) ==> !CheckBlock(sha, t, |t| - 1, b, h, list).Accepted?
  {
    if b < |t[0]| {
      if Orphan !in Sides(|t[0]|, b) {
        LengthFixedIsRepaired(sha, t, b, h, list);
      } else {
        LengthFixedStillRefuses(sha, t, b, h, list);
      }
    }
  }

  // ---- When does the written fold accept a full tree's own list?

  /** The written fold of block b's own hash and list gives the root. */
  predicate OwnListFoldsAsWritten(sha: Digest, leaves: seq<Hash>, b: nat)
    requires b < |leaves|
  {
    var list := HashList(TreeOf(sha, Somes(leaves)), b);
    AllSet(list) && Some(Fold(sha, ParitySides(|list|, b), leaves[b], Values(list))) == Root(TreeOf(sha, Somes(leaves)))
  }

  lemma NoOrphanFoldsAsWritten(sha: Digest, leaves: seq<Hash>, b: nat)
    requires b < |leaves| && Orphan !in Sides(|leaves|, b)
    ensures OwnListFoldsAsWritten(sha, leaves, b)
  {
    HashListFoldsToRoot(sha, Somes(leaves), b);
    SiblingsExistIffNoOrphan(TreeOf(sha, Somes(leaves)), b);
  }

  const LEAF: Hash := [1, 1, 1, 1, 1, 1, 1, 1, 1, 1, 1, 1, 1, 1, 1, 1, 1, 1, 1, 1]
  const SPOILT: Hash := [2, 2, 2, 2, 2, 2, 2, 2, 2, 2, 2, 2, 2, 2, 2, 2, 2, 2, 2, 2]

  /** A digest that maps two leaves to a leaf and shows anything else hashed in. */
  function Telltale(s: seq<byte>): Hash {
    if s == LEAF + LEAF then LEAF else SPOILT
  }

  function EqualLeaves(n: nat): (leaves: seq<Hash>)
    ensures |leaves| == n && forall i :: 0 <= i < n ==> leaves[i] == LEAF
  {
    seq(n, _ => LEAF)
  }

  predicate AllLeaf(level: Level) {
    forall i :: 0 <= i < |level| ==> level[i] == Some(LEAF)
  }

  /** Under Telltale, folding up from h is spoilt by h itself or by any orphan level. */
  ghost predicate TelltaleShows(level: Level, b: nat, h: Hash)
    requires |level| >= 1 && b < |level|
  {
    var t := TreeOf(Telltale, level);
    var list := HashList(t, b);
    && Root(t) == Some(LEAF) && AllSet(list)
    && Fold(Telltale, ParitySides(|list|, b), h, Values(list))
       == if h == SPOILT || Orphan in Sides(|level|, b) then SPOILT else LEAF
  }

  lemma {:induction false} TelltaleFold(level: Level, b: nat, h: Hash)
    requires |level| >= 1 && AllLeaf(level) && b < |level| && (h == LEAF || h == SPOILT)
    ensures TelltaleShows(level, b, h)
    decreases |level|
  {
    if |level| > 1 {
      var above := Grow(Telltale, level);
      assert AllLeaf(above);
      var entry := if SideOf(|level|, b) == Orphan then ZERO_HASH else LEAF;
      var side := if b % 2 == 0 then LeftChild else RightChild;
      var h' := if h == SPOILT || SideOf(|level|, b) == Orphan then SPOILT else LEAF;
      assert SiblingSlot(level, b) == Some(entry);
      LeafIsNotZero();
      TelltaleStep(side, h, entry);
      TelltaleFold(above, b / 2, h');
      TelltaleUp(level, b, h, side, entry, h');
    }
  }

  lemma LeafIsNotZero()
    ensures LEAF != ZERO_HASH && LEAF != SPOILT
  {
    assert LEAF[0] != ZERO_HASH[0] && LEAF[0] != SPOILT[0];
  }

  lemma OwnListHead(sha: Digest, level: Level, b: nat, entry: Hash)
    requires |level| >= 2 && b < |level| && SiblingSlot(level, b) == Some(entry)
    requires AllSet(HashList(TreeOf(sha, Grow(sha, level)), b / 2))
    ensures var list, rest := HashList(TreeOf(sha, level), b), HashList(TreeOf(sha, Grow(sha, level)), b / 2);
            AllSet(list) && Values(list) == [entry] + Values(rest)
  {
    PathHead(sha, level, b);
    ValuesHead(entry, HashList(TreeOf(sha, Grow(sha, level)), b / 2));
  }

  function ParitySide(b: nat): Side {
    if b % 2 == 0 then LeftChild else RightChild
  }

  lemma ParityFoldHead(sha: Digest, b: nat, h: Hash, entry: Hash, rest: seq<Hash>)
    ensures Fold(sha, ParitySides(|rest| + 1, b), h, [entry] + rest)
         == Fold(sha, ParitySides(|rest|, b / 2), StepUp(sha, ParitySide(b), h, entry), rest)
  {
    FoldHead(sha, ParitySide(b), ParitySides(|rest|, b / 2), h, entry, rest);
    assert ParitySides(|rest| + 1, b) == [ParitySide(b)] + ParitySides(|rest|, b / 2);
  }

  lemma TelltaleUp(level: Level, b: nat, h: Hash, side: Side, entry: Hash, h': Hash)
    requires |level| >= 2 && b < |level| && SiblingSlot(level, b) == Some(entry)
    requires side == if b % 2 == 0 then LeftChild else RightChild
    requires StepUp(Telltale, side, h, entry) == h'
    requires h' == SPOILT <==> h == SPOILT || SideOf(|level|, b) == Orphan
    requires TelltaleShows(Grow(Telltale, level), b / 2, h')
    ensures TelltaleShows(level, b, h)
  {
    var rest := HashList(TreeOf(Telltale, Grow(Telltale, level)), b / 2);
    OwnListHead(Telltale, level, b, entry);
    ParityFoldHead(Telltale, b, h, entry, Values(rest));
    PathHead(Telltale, level, b);
    assert Orphan in Sides(|level|, b) <==> SideOf(|level|, b) == Orphan || Orphan in Sides(Up(|level|), b / 2);
  }

  lemma TelltaleStep(side: Side, h: Hash, entry: Hash)
    requires side != Orphan && (h == LEAF || h == SPOILT) && (entry == LEAF || entry == ZERO_HASH)
    ensures StepUp(Telltale, side, h, entry) == if h == LEAF && entry == LEAF then LEAF else SPOILT
  {
    var fed := Fed(side, h, entry);
    assert h != LEAF ==> h[0] == 2;
    assert entry != LEAF ==> entry[0] == 0;
    if fed == LEAF + LEAF {
      assert fed[0] == 1 && fed[20] == 1;
    }
  }

  /** For every file size and block: the written fold accepts every full tree's own list,
      whatever the digest and the leaves, if and only if the path has no orphan level. */
  lemma WrittenFoldIffNoOrphan(n: nat, b: nat)
    requires b < n
    ensures (forall sha: Digest, leaves: seq<Hash> | |leaves| == n :: OwnListFoldsAsWritten(sha, leaves, b))
       <==> Orphan !in Sides(n, b)
  {
    if Orphan !in Sides(n, b) {
      forall sha: Digest, leaves: seq<Hash> | |leaves| == n ensures OwnListFoldsAsWritten(sha, leaves, b) {
        NoOrphanFoldsAsWritten(sha, leaves, b);
      }
    } else {
      TelltaleFold(Somes(EqualLeaves(n)), b, LEAF);
      assert LEAF[0] != SPOILT[0];
      assert !OwnListFoldsAsWritten(Telltale, EqualLeaves(n), b);
    }
  }

  /** The file sizes for which no block has an orphan level are the powers of two. */
  lemma {:induction false} NoOrphansIffPowerOfTwo(n: nat)
    requires n >= 1
    ensures (forall b: nat | b < n :: Orphan !in Sides(n, b)) <==> PowerOfTwo(n)
    decreases n
  {
    if n > 1 {
      NoOrphansIffPowerOfTwo(Up(n));
      if n % 2 == 1 {
        var last: nat := n - 1;
        assert Sides(n, last)[0] == Orphan;
        assert Orphan in Sides(n, last);
      } else if PowerOfTwo(n) {
        forall b: nat | b < n ensures Orphan !in Sides(n, b) {
          assert Orphan !in Sides(Up(n), b / 2);
        }
      } else {
        var b: nat :| b < Up(n) && Orphan in Sides(Up(n), b);
        var low: nat := 2 * b;
        assert Sides(n, low)[1..] == Sides(Up(n), b);
        assert Orphan in Sides(n, low);
      }
    }
  }

  // ---- For every digest

  /** A hash with the zero hash of an orphan level hashed in. */
  function Padded(sha: Digest, h: Hash): Hash {
    Combine(sha, h, ZERO_HASH)
  }

  function Iterated(sha: Digest, h: Hash, k: nat): Hash {
    if k == 0 then h else Padded(sha, Iterated(sha, h, k - 1))
  }

  /** A weakness of the digest: two inputs that collide, or a hash that padding brings back
      to itself. */
  datatype Flaw = Collision(pair: (seq<byte>, seq<byte>)) | Cycle(h: Hash, length: nat) | NoFlaw

  predicate Shown(sha: Digest, f: Flaw) {
    match f
    case Collision(pair) => Collides(sha, pair)
    case Cycle(h, length) => length >= 1 && Iterated(sha, h, length) == h
    case NoFlaw => false
  }

  function WrittenSides(sides: seq<Side>): (r: seq<Side>)
    ensures |r| == |sides|
  {
    seq(|sides|, i requires 0 <= i < |sides| => if sides[i] == RightChild then RightChild else LeftChild)
  }

  lemma {:induction false} ParitySidesAre(n: nat, b: nat)
    requires b < n
    ensures ParitySides(|Sides(n, b)|, b) == WrittenSides(Sides(n, b))
    decreases n
  {
    if n > 1 {
      ParitySidesAre(Up(n), b / 2);
      assert Sides(n, b)[1..] == Sides(Up(n), b / 2);
      assert WrittenSides(Sides(n, b)) == WrittenSides(Sides(n, b))[..1] + WrittenSides(Sides(n, b)[1..]);
    }
  }

  /** A path of a full tree without a zero node: the list has a zero hash on the orphan
      levels, and no other. */
  predicate OwnPath(sha: Digest, sides: seq<Side>, h: Hash, list: seq<Hash>)
    requires |sides| == |list|
    decreases |list|
  {
    && h != ZERO_HASH
    && (|list| == 0 ||
        (&& (list[0] == ZERO_HASH <==> sides[0] == Orphan)
         && OwnPath(sha, sides[1..], StepUp(sha, sides[0], h, list[0]), list[1..])))
  }

  lemma {:induction false} OwnListIsOwnPath(sha: Digest, level: Level, b: nat)
    requires |level| >= 1 && AllSet(level) && b < |level| && NoZeroHash(TreeOf(sha, level))
    ensures var list := HashList(TreeOf(sha, level), b);
            && AllSet(list) && |Sides(|level|, b)| == |list|
            && OwnPath(sha, Sides(|level|, b), level[b].value, Values(list))
    decreases |level|
  {
    var t := TreeOf(sha, level);
    HashListFoldsToRoot(sha, level, b);
    assert level[b] == t[0][b];
    if |level| > 1 {
      var above, sibling := Grow(sha, level), SiblingSlot(level, b);
      FullTreeHasNoNull(sha, level, 1);
      assert t[1..] == TreeOf(sha, above);
      assert NoZeroHash(t[1..]);
      OwnListIsOwnPath(sha, above, b / 2);
      var rest := HashList(TreeOf(sha, above), b / 2);
      PathHead(sha, level, b);
      ParentIsStepUp(sha, level, b);
      ValuesHead(sibling.value, rest);
      assert Sibling(b) < |level| ==> sibling == t[0][Sibling(b)];
      OwnPathHead(sha, SideOf(|level|, b), Sides(Up(|level|), b / 2), level[b].value, sibling.value, Values(rest));
    }
  }

  lemma OwnPathHead(sha: Digest, side: Side, sides: seq<Side>, h: Hash, sibling: Hash, list: seq<Hash>)
    requires |sides| == |list| && h != ZERO_HASH && (sibling == ZERO_HASH <==> side == Orphan)
    requires OwnPath(sha, sides, StepUp(sha, side, h, sibling), list)
    ensures OwnPath(sha, [side] + sides, h, [sibling] + list)
  {
    assert ([side] + sides)[1..] == sides && ([sibling] + list)[1..] == list;
  }

  /** Walk the true fold, at h, and the written one, at w, up together. `made` is what the
      hasher was fed for h, if it was made on this path, and `padded` counts the orphan
      levels below it otherwise. */
  function FindFlaw(sha: Digest, sides: seq<Side>, h: Hash, w: Hash, made: Option<seq<byte>>,
                    padded: nat, list: seq<Hash>): Flaw
    requires |sides| == |list|
    decreases |list|
  {
    if |list| == 0 then NoFlaw
    else if sides[0] == Orphan then
      if Padded(sha, w) == h then
        if made.None? then Cycle(h, padded + 1) else Collision((w + ZERO_HASH, made.value))
      else FindFlaw(sha, sides[1..], h, Padded(sha, w), made, padded + 1, list[1..])
    else if Collides(sha, FedPair(sides[0], h, list[0], w, list[0])) then
      Collision(FedPair(sides[0], h, list[0], w, list[0]))
    else FindFlaw(sha, sides[1..], StepUp(sha, sides[0], h, list[0]), StepUp(sha, sides[0], w, list[0]),
                  Some(Fed(sides[0], h, list[0])), 0, list[1..])
  }

  /** How the two folds stand to each other. */
  predicate Walking(sha: Digest, sides: seq<Side>, h: Hash, w: Hash, made: Option<seq<byte>>, padded: nat) {
    && (h != w || Orphan in sides)
    && match made
       case None => w == Iterated(sha, h, padded)
       case Some(fed) => sha(fed) == h && |fed| == 2 * HASH_SIZE && fed[HASH_SIZE..] != ZERO_HASH
  }

  lemma FedParts(side: Side, h: Hash, s: Hash, w: Hash)
    requires side != Orphan
    ensures Fed(side, h, s)[HASH_SIZE..] == if side == RightChild then h else s
    ensures Fed(side, h, s) == Fed(side, w, s) ==> h == w
  {
    if side == RightChild {
      assert Fed(side, h, s)[HASH_SIZE..] == h && Fed(side, w, s)[HASH_SIZE..] == w;
    } else {
      assert Fed(side, h, s)[..HASH_SIZE] == h && Fed(side, w, s)[..HASH_SIZE] == w;
    }
  }

  /** One level that is no orphan keeps two different folds apart, or they collide. */
  lemma WalkOn(sha: Digest, sides: seq<Side>, h: Hash, w: Hash, made: Option<seq<byte>>, padded: nat, s: Hash)
    requires |sides| > 0 && sides[0] != Orphan && Walking(sha, sides, h, w, made, padded)
    requires h != ZERO_HASH && s != ZERO_HASH && !Collides(sha, FedPair(sides[0], h, s, w, s))
    ensures Walking(sha, sides[1..], StepUp(sha, sides[0], h, s), StepUp(sha, sides[0], w, s),
                    Some(Fed(sides[0], h, s)), 0)
  {
    FedParts(sides[0], h, s, w);
    if h == w {
      assert Orphan in sides[1..];
    }
  }

  lemma PaddedPair(sha: Digest, w: Hash, fed: seq<byte>)
    requires |fed| == 2 * HASH_SIZE && fed[HASH_SIZE..] != ZERO_HASH && Padded(sha, w) == sha(fed)
    ensures Collides(sha, (w + ZERO_HASH, fed))
  {
    assert (w + ZERO_HASH)[HASH_SIZE..] == ZERO_HASH;
  }

  lemma {:induction false} MeetingShowsFlaw(sha: Digest, sides: seq<Side>, h: Hash, w: Hash,
                                            made: Option<seq<byte>>, padded: nat, list: seq<Hash>)
    requires |sides| == |list| && Walking(sha, sides, h, w, made, padded) && OwnPath(sha, sides, h, list)
    requires Fold(sha, sides, h, list) == Fold(sha, WrittenSides(sides), w, list)
    ensures Shown(sha, FindFlaw(sha, sides, h, w, made, padded, list))
    decreases |list|
  {
    if |list| > 0 {
      assert WrittenSides(sides)[1..] == WrittenSides(sides[1..]);
      if sides[0] == Orphan {
        if Padded(sha, w) != h {
          MeetingShowsFlaw(sha, sides[1..], h, Padded(sha, w), made, padded + 1, list[1..]);
        } else if made.Some? {
          PaddedPair(sha, w, made.value);
        }
      } else if !Collides(sha, FedPair(sides[0], h, list[0], w, list[0])) {
        WalkOn(sha, sides, h, w, made, padded, list[0]);
        MeetingShowsFlaw(sha, sides[1..], StepUp(sha, sides[0], h, list[0]), StepUp(sha, sides[0], w, list[0]),
                         Some(Fed(sides[0], h, list[0])), 0, list[1..]);
      }
    }
  }

  /** What the written fold of block b's own list would have to exhibit to give the root. */
  function OwnFlaw(sha: Digest, leaves: seq<Hash>, b: nat): Flaw
    requires b < |leaves|
  {
    HashListFoldsToRoot(sha, Somes(leaves), b);
    FindFlaw(sha, Sides(|leaves|, b), leaves[b], leaves[b], None, 0, Values(HashList(TreeOf(sha, Somes(leaves)), b)))
  }

  /** For every digest and every file: on a path with an orphan level the written fold of a
      block's own list misses the root, unless the tree has an all-zero node or the digest
      shows a flaw. */
  lemma OrphanPathIsRefused(sha: Digest, leaves: seq<Hash>, b: nat)
    requires b < |leaves| && Orphan in Sides(|leaves|, b)
    ensures !OwnListFoldsAsWritten(sha, leaves, b) || !NoZeroHash(TreeOf(sha, Somes(leaves)))
         || Shown(sha, OwnFlaw(sha, leaves, b))
  {
    if OwnListFoldsAsWritten(sha, leaves, b) && NoZeroHash(TreeOf(sha, Somes(leaves))) {
      HashListFoldsToRoot(sha, Somes(leaves), b);
      OwnListIsOwnPath(sha, Somes(leaves), b);
      ParitySidesAre(|leaves|, b);
      MeetingShowsFlaw(sha, Sides(|leaves|, b), leaves[b], leaves[b], None, 0,
                       Values(HashList(TreeOf(sha, Somes(leaves)), b)));
    }
  }

  lemma ThreeLeaves(sha: Digest, x: Hash, y: Hash, z: Hash)
    ensures var t := TreeOf(sha, Somes([x, y, z]));
            && Root(t) == Some(Combine(sha, Combine(sha, x, y), z))
            && HashList(t, 2) == [Some(ZERO_HASH), Some(Combine(sha, x, y))]
  {
    var level: Level := Somes([x, y, z]);
    var above: Level := [Some(Combine(sha, x, y)), Some(z)];
    var top: Level := [Some(Combine(sha, Combine(sha, x, y), z))];
    assert Grow(sha, level) == above;
    assert Grow(sha, above) == top;
    assert TreeOf(sha, top) == [top];
    PathHead(sha, level, 2);
    PathHead(sha, above, 1);
    assert HashList([top], 0) == [];
  }

  /** Three blocks, the last one an orphan: its own list folds to the root as written iff
      padding brings its hash back to itself, or two inputs collide. */
  lemma ThirdOfThree(sha: Digest, x: Hash, y: Hash, z: Hash)
    ensures OwnListFoldsAsWritten(sha, [x, y, z], 2) <==>
            Padded(sha, z) == z
            || Collides(sha, (Combine(sha, x, y) + Padded(sha, z), Combine(sha, x, y) + z))
  {
    var xy := Combine(sha, x, y);
    ThreeLeaves(sha, x, y, z);
    var list := HashList(TreeOf(sha, Somes([x, y, z])), 2);
    assert Values(list) == [ZERO_HASH, xy];
    assert ParitySides(1, 1) == [RightChild] + ParitySides(0, 0) == [RightChild];
    assert ParitySides(2, 2) == [LeftChild] + ParitySides(1, 1) == [LeftChild, RightChild];
    FoldHead(sha, LeftChild, [RightChild], z, ZERO_HASH, [xy]);
    FoldHead(sha, RightChild, [], Padded(sha, z), xy, []);
    if xy + Padded(sha, z) == xy + z {
      ConcatInjective(xy, Padded(sha, z), xy, z);
    }
  }
}
