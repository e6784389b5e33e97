/** The index and the transfer together: what a peer serves for a root hash is what its
    index records under it (HashDatabase.cpp, find by hash, as Peer.cpp uses it). */
module Sharing {
  import opened Hashes
  import opened Endian
  import opened Merkle
  import opened BlockProof
  import opened FileFormat
  import opened CompleteFiles
  import opened Downloads
  import opened Peers
  import opened Transfers
  import opened HashIndex

  /** The contents of the files on disk. */
  type Disk = map<seq<byte>, seq<byte>>

  /** A root hash is looked up in the index, and the file recorded there is opened by name. */
  function SharedFiles(db: Store, disk: Disk): Database {
    (h: Hash) =>
      var found := FindByHash(db, h);
      if found.Some? && found.value.name in disk then Some(disk[found.value.name]) else None
  }

  /** The index lists the file and finds its record, by name and by root hash. */
  predicate Offers(sha: Digest, db: Store, f: DiskFile) {
    && Listed(db, f.name) && RootOf(db, f.name) == RootHashOf(sha, f)
    && FindByHash(db, RootHashOf(sha, f)) == Some(Entry(f.name, f.time, Encode(StoredFile(sha, f))))
  }

  lemma AddedIsOffered(sha: Digest, db: Store, f: DiskFile)
    requires Plausible(f)
    ensures Offers(sha, Added(sha, db, f), f)
  {
    RecordOfReadsBack(sha, f);
    AddedLookups(sha, db, f, f.name);
  }

  /** What a peer serves for a root hash: the content on disk of the file it offers, and
      nothing when the index finds no record or the file is not there. */
  lemma ServedContent(sha: Digest, db: Store, f: DiskFile, disk: Disk, h: Hash)
    ensures Offers(sha, db, f) && f.name in disk ==>
              SharedFiles(db, disk)(RootHashOf(sha, f)) == Some(disk[f.name])
    ensures FindByHash(db, h) == None ==> SharedFiles(db, disk)(h) == None
    ensures FindByHash(db, h).Some? && FindByHash(db, h).value.name !in disk ==> SharedFiles(db, disk)(h) == None
  {
  }

  /** The action neither adds nor deletes this name. */
  predicate Spares(a: Action, name: seq<byte>) {
    match a
    case Add(g) => g.name != name
    case Delete(gone) => gone != name
    case DeleteUnder(path) => path != [] ==> !(Slashed(path) <= name)
  }

  lemma ActionKeepsOffer(sha: Digest, db: Store, f: DiskFile, a: Action)
    requires Intact(db) && Offers(sha, db, f) && Allowed(sha, db, a) && Spares(a, f.name)
    ensures Offers(sha, Done(sha, db, a), f)
  {
    IntactIsDistinct(db);
    match a
    case Add(g) => AddedLookups(sha, db, g, f.name);
    case Delete(gone) => DeletedLookups(db, gone, f.name);
    case DeleteUnder(path) =>
      UnderIsListed(db, Slashed(path));
      ListedUnderMeaning(db, Slashed(path), f.name);
      PurgedLookups(db, ListedUnder(db, Slashed(path)), f.name);
  }

  /** A file stays offered through any run that spares its name and shares no root hash. */
  lemma {:induction false} RunKeepsOffer(sha: Digest, db: Store, f: DiskFile, actions: seq<Action>)
    requires Intact(db) && Offers(sha, db, f) && AllowedRun(sha, db, actions)
    requires forall i :: 0 <= i < |actions| ==> Spares(actions[i], f.name)
    ensures Offers(sha, AfterRun(sha, db, actions), f)
    decreases |actions|
  {
    if actions != [] {
      ActionKeepsOffer(sha, db, f, actions[0]);
      ActionKeepsIntact(sha, db, actions[0]);
      RunKeepsOffer(sha, Done(sha, db, actions[0]), f, actions[1..]);
    }
  }

  /** The hash list that comes out of the stored record is the one of the file's content,
      when the record reads back whole. */
  lemma StoredListIsOwn(sha: Digest, f: DiskFile, b: nat)
    requires Plausible(f) && NoZeroHash(StoredFile(sha, f).tree)
    ensures HeaderReadable(Encode(StoredFile(sha, f)))
    ensures var read := Decode(Encode(StoredFile(sha, f)));
            && read.Ok? && |read.value.tree| >= 1 && Shaped(read.value.tree, |read.value.tree[0]|)
            && AllSet(HashList(read.value.tree, b))
            && Values(HashList(read.value.tree, b)) == OwnList(sha, LeafHashes(sha, f.content), b)
  {
    SerializeRoundTrip(StoredFile(sha, f));
    HashListSet(sha, Somes(LeafHashes(sha, f.content)), b);
  }

  /** A file that was added to an intact index and spared since, and that is unchanged on
      disk, arrives whole at whoever asks this peer for all blocks of its root hash: in any
      fragments, in any order, and among any calls of checkBlock without a collision. */
  lemma IndexedFileArrives(sha: Digest, db: Store, f: DiskFile, actions: seq<Action>, disk: Disk,
                           exchanges: seq<Exchange>, calls: seq<Call>)
    requires Intact(db) && Plausible(f) && Unshared(db, f.name, RootHashOf(sha, f))
    requires AllowedRun(sha, Added(sha, db, f), actions)
    requires forall i :: 0 <= i < |actions| ==> Spares(actions[i], f.name)
    requires f.name in disk && disk[f.name] == f.content && f.content != []
    requires |exchanges| == BlockCount(|f.content|) <= 269
    requires forall b: nat :: b < |exchanges| ==>
               Exchanged(sha, SharedFiles(AfterRun(sha, Added(sha, db, f), actions), disk), RootHashOf(sha, f),
                         f.content, b, exchanges[b])
    requires forall b: nat :: b < |exchanges| ==>
               FetchedCall(sha, SharedFiles(AfterRun(sha, Added(sha, db, f), actions), disk), RootHashOf(sha, f),
                           f.content, b, exchanges[b]) in calls
    requires CallsInRange(calls, BlockCount(|f.content|))
    requires NoForgery(sha, LeafHashes(sha, f.content), calls)
    ensures SharedFiles(AfterRun(sha, Added(sha, db, f), actions), disk)(RootHashOf(sha, f)) == Some(f.content)
    ensures var p := Run(sha, Start(BlockCount(|f.content|), RootHashOf(sha, f)), calls);
            && (forall b :: 0 <= b < |p.blocks| ==> p.blocks[b])
            && p.tree == StoredFile(sha, f).tree
  {
    AddKeepsIntactIffUnshared(sha, db, f);
    AddedIsOffered(sha, db, f);
    RunKeepsOffer(sha, Added(sha, db, f), f, actions);
    SharedFileArrives(sha, SharedFiles(AfterRun(sha, Added(sha, db, f), actions), disk), RootHashOf(sha, f),
                      f.content, exchanges, calls);
  }
}
