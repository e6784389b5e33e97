/** The stored index of shared files (HashDatabase.cpp): records by root hash, and root
    hashes by file name, in one ordered byte map. */
module HashIndex {
  import opened Hashes
  import opened Endian
  import opened Merkle
  import opened FileFormat
  import opened Files
  import opened CompleteFiles

  const TIME_BYTES: nat := 8
  const SLASH: byte := 47

  // ---- Records

  /** serialize: name, NUL, time of last write, file. */
  function Record(name: seq<byte>, time: nat, file: seq<byte>): seq<byte> {
    name + [0] + LittleEndian(time, TIME_BYTES) + file
  }

  /** Length of the C string at the start of data, looked for below `limit`. */
  function NulAt(data: seq<byte>, from: nat, limit: nat): (n: nat)
    requires from <= limit <= |data|
    ensures from <= n <= limit
    ensures forall i :: from <= i < n ==> data[i] != 0
    ensures n < limit ==> data[n] == 0
    decreases limit - from
  {
    if from == limit || data[from] == 0 then from else NulAt(data, from + 1, limit)
  }

  datatype Entry = Entry(name: seq<byte>, time: nat, file: seq<byte>)

  /** unserialize; None stands for its failing assertion. */
  function ReadRecord(data: seq<byte>): Option<Entry> {
    if |data| < TIME_BYTES + HASH_SIZE then None
    else
      var limit := |data| - TIME_BYTES - HASH_SIZE;
      var n := NulAt(data, 0, limit);
      if n + 1 >= limit then None
      else Some(Entry(data[..n], FromLittleEndian(data[n + 1..n + 1 + TIME_BYTES]), data[n + 1 + TIME_BYTES..]))
  }

  method Unserialize(data: seq<byte>) returns (entry: Option<Entry>)
    ensures entry == ReadRecord(data)
  {
    if |data| < TIME_BYTES + HASH_SIZE {
      return None;
    }
    var limit := |data| - TIME_BYTES - HASH_SIZE;
    var sFilename: nat := 0;
    while sFilename < limit && data[sFilename] != 0
      invariant sFilename <= limit
      invariant NulAt(data, sFilename, limit) == NulAt(data, 0, limit)
    {
      sFilename := sFilename + 1;
    }
    var name := data[..sFilename];
    sFilename := sFilename + 1;
    if sFilename >= limit {
      return None;
    }
    return Some(Entry(name, FromLittleEndian(data[sFilename..sFilename + TIME_BYTES]), data[sFilename + TIME_BYTES..]));
  }

  lemma {:induction false} NulAtIs(data: seq<byte>, from: nat, limit: nat, n: nat)
    requires from <= n < limit <= |data| && data[n] == 0
    requires forall i :: from <= i < n ==> data[i] != 0
    ensures NulAt(data, from, limit) == n
    decreases n - from
  {
    if from < n {
      NulAtIs(data, from + 1, limit, n);
    }
  }

  /** A record of a real file (at least 29 bytes) reads back whole iff its name holds no
      NUL. */
  lemma RecordRoundTrip(name: seq<byte>, time: nat, file: seq<byte>)
    requires time < WORD64 && |file| > HASH_SIZE
    ensures ReadRecord(Record(name, time, file)) == Some(Entry(name, time, file)) <==> 0 !in name
  {
    var data := Record(name, time, file);
    var limit := |data| - TIME_BYTES - HASH_SIZE;
    assert data[|name|] == 0;
    if 0 !in name {
      forall i | 0 <= i < |name| ensures data[i] != 0 {
        assert data[i] == name[i] && name[i] in name;
      }
      NulAtIs(data, 0, limit, |name|);
      LittleEndian64RoundTrip(time);
      assert data[..|name|] == name;
      assert data[|name| + 1..|name| + 1 + TIME_BYTES] == LittleEndian(time, TIME_BYTES);
      assert data[|name| + 1 + TIME_BYTES..] == file;
    } else {
      var i :| 0 <= i < |name| && name[i] == 0;
      assert data[i] == 0;
      assert NulAt(data, 0, limit) <= i;
    }
  }

  /** Data long enough for a time and a hash reads as a record iff a NUL comes early enough
      to leave room for both and two bytes more. */
  lemma RecordReadableIff(data: seq<byte>)
    requires |data| >= 28
    ensures ReadRecord(data).Some? <==> exists k :: 0 <= k && k + 1 < |data| - 28 && data[k] == 0
  {
    var limit := |data| - TIME_BYTES - HASH_SIZE;
    var n := NulAt(data, 0, limit);
    assert n + 1 < limit ==> data[n] == 0;
  }

  /** Where the parts of a record are. */
  lemma RecordLayout(name: seq<byte>, time: nat, file: seq<byte>)
    ensures var data := Record(name, time, file);
            && |data| == |name| + 9 + |file|
            && data[..|name|] == name && data[|name|] == 0
            && (forall i :: 0 <= i < 8 ==> data[|name| + 1 + i] == time / Limit(i) % 256)
            && data[|name| + 9..] == file
  {
    var data := Record(name, time, file);
    forall i | 0 <= i < 8 ensures data[|name| + 1 + i] == time / Limit(i) % 256 {
      LittleEndianDigit(time, 8, i);
      assert data[|name| + 1 + i] == LittleEndian(time, 8)[i];
    }
  }

  // ---- The map

  type Store = map<seq<byte>, seq<byte>>

  function HashKey(h: seq<byte>): seq<byte> {
    [0] + h
  }

  function NameKey(name: seq<byte>): seq<byte> {
    [1] + name
  }

  lemma KeysDiffer(a: seq<byte>, b: seq<byte>)
    ensures NameKey(a) != HashKey(b)
    ensures NameKey(a) == NameKey(b) <==> a == b
    ensures HashKey(a) == HashKey(b) <==> a == b
  {
    assert NameKey(a)[0] == 1 && HashKey(b)[0] == 0;
    assert NameKey(a)[1..] == a && NameKey(b)[1..] == b;
    assert HashKey(a)[1..] == a && HashKey(b)[1..] == b;
  }

  /** A file is listed under this name; the bare prefix is the marker the constructor puts. */
  predicate Listed(db: Store, name: seq<byte>) {
    name != [] && NameKey(name) in db
  }

  function RootOf(db: Store, name: seq<byte>): seq<byte>
    requires Listed(db, name)
  {
    db[NameKey(name)]
  }

  /** Root hashes and names have keys of their own, told apart by their first byte. */
  lemma KeyLayout(name: seq<byte>, h: Hash)
    ensures |HashKey(h)| == 21 && HashKey(h)[0] == 0 && HashKey(h)[1..] == h
    ensures |NameKey(name)| == |name| + 1 && NameKey(name)[0] == 1 && NameKey(name)[1..] == name
  {
  }

  /** find: from a name to its record. */
  function FindByName(db: Store, name: seq<byte>): Option<Entry> {
    if !Listed(db, name) || HashKey(RootOf(db, name)) !in db then None
    else ReadRecord(db[HashKey(RootOf(db, name))])
  }

  predicate Resolves(db: Store, name: seq<byte>) {
    FindByName(db, name).Some? && FindByName(db, name).value.name == name
  }

  /** Every listed name resolves to a record that carries that name. */
  ghost predicate Intact(db: Store) {
    forall name :: Listed(db, name) ==> Resolves(db, name)
  }

  /** find by root hash. */
  function FindByHash(db: Store, h: seq<byte>): Option<Entry> {
    if HashKey(h) !in db then None else ReadRecord(db[HashKey(h)])
  }

  /** The record under this root hash carries a name that is listed with that root hash. */
  predicate IsBacked(db: Store, h: seq<byte>) {
    var found := FindByHash(db, h);
    found.Some? && Listed(db, found.value.name) && RootOf(db, found.value.name) == h
  }

  /** Every record is reached from the name it carries; the empty one is a marker. */
  ghost predicate Backed(db: Store) {
    forall h :: HashKey(h) in db && db[HashKey(h)] != [] ==> IsBacked(db, h)
  }

  /** No other listed name has this root hash. */
  ghost predicate Unshared(db: Store, name: seq<byte>, h: seq<byte>) {
    forall other :: Listed(db, other) && other != name ==> RootOf(db, other) != h
  }

  // ---- addFile and delFile

  /** What addFile finds on disk under a name. */
  datatype DiskFile = DiskFile(name: seq<byte>, time: nat, content: seq<byte>)

  predicate Plausible(f: DiskFile) {
    f.name != [] && 0 !in f.name && f.time < WORD64 && |f.content| < WORD64
  }

  function RootHashOf(sha: Digest, f: DiskFile): Hash {
    TreeHash(sha, LeafHashes(sha, f.content))
  }

  /** The complete file that addFile stores. */
  function StoredFile(sha: Digest, f: DiskFile): Stored {
    Stored(|f.content|, seq(BlockCount(|f.content|), _ => true),
           TreeOf(sha, PartialLeaves(sha, f)))
  }

  function PartialLeaves(sha: Digest, f: DiskFile): (level: Level)
    ensures |level| >= 1
  {
    Somes(LeafHashes(sha, f.content))
  }

  function RecordOf(sha: Digest, f: DiskFile): seq<byte> {
    Record(f.name, f.time, Encode(StoredFile(sha, f)))
  }

  function Added(sha: Digest, db: Store, f: DiskFile): Store {
    db[HashKey(RootHashOf(sha, f)) := RecordOf(sha, f)][NameKey(f.name) := RootHashOf(sha, f)]
  }

  function Deleted(db: Store, name: seq<byte>): Store
    requires Listed(db, name)
  {
    db - {NameKey(name)} - {HashKey(RootOf(db, name))}
  }

  lemma RecordOfReadsBack(sha: Digest, f: DiskFile)
    requires Plausible(f)
    ensures ReadRecord(RecordOf(sha, f)) == Some(Entry(f.name, f.time, Encode(StoredFile(sha, f))))
  {
    EncodedSize(StoredFile(sha, f));
    RecordRoundTrip(f.name, f.time, Encode(StoredFile(sha, f)));
  }

  lemma AddedLookups(sha: Digest, db: Store, f: DiskFile, name: seq<byte>)
    ensures Listed(Added(sha, db, f), name) <==> Listed(db, name) || (name == f.name && name != [])
    ensures Listed(Added(sha, db, f), name) ==>
              RootOf(Added(sha, db, f), name) == if name == f.name then RootHashOf(sha, f) else RootOf(db, name)
    ensures forall h :: HashKey(h) in Added(sha, db, f) <==> h == RootHashOf(sha, f) || HashKey(h) in db
    ensures forall h :: HashKey(h) in Added(sha, db, f) ==>
              Added(sha, db, f)[HashKey(h)] == if h == RootHashOf(sha, f) then RecordOf(sha, f) else db[HashKey(h)]
  {
    var r := RootHashOf(sha, f);
    KeysDiffer(name, r);
    KeysDiffer(name, f.name);
    forall h
      ensures HashKey(h) in Added(sha, db, f) <==> h == r || HashKey(h) in db
      ensures HashKey(h) in Added(sha, db, f) ==>
                Added(sha, db, f)[HashKey(h)] == if h == r then RecordOf(sha, f) else db[HashKey(h)]
    {
      KeysDiffer(f.name, h);
      KeysDiffer(h, r);
    }
  }

  /** Adding a file keeps an intact index intact iff no other listed name has the same root
      hash; the name added then resolves to the file as it is on disk. */
  lemma AddKeepsIntactIffUnshared(sha: Digest, db: Store, f: DiskFile)
    requires Intact(db) && Plausible(f)
    ensures Intact(Added(sha, db, f)) <==> Unshared(db, f.name, RootHashOf(sha, f))
    ensures FindByName(Added(sha, db, f), f.name) == Some(Entry(f.name, f.time, Encode(StoredFile(sha, f))))
  {
    var db', r := Added(sha, db, f), RootHashOf(sha, f);
    RecordOfReadsBack(sha, f);
    AddedLookups(sha, db, f, f.name);
    if Unshared(db, f.name, r) {
      forall name | Listed(db', name) ensures Resolves(db', name) {
        AddedLookups(sha, db, f, name);
        if name != f.name {
          assert Resolves(db, name);
        }
      }
    } else {
      var other :| Listed(db, other) && other != f.name && RootOf(db, other) == r;
      AddedLookups(sha, db, f, other);
      assert FindByName(db', other).value.name == f.name;
      assert !Resolves(db', other);
    }
  }

  /** The record found under an added name decodes to the whole file that was hashed, iff
      its tree holds no all-zero hash. */
  lemma AddedFileReadsBack(sha: Digest, db: Store, f: DiskFile)
    requires Plausible(f)
    ensures var found := FindByName(Added(sha, db, f), f.name);
            && found.Some? && HeaderReadable(found.value.file)
            && (Decode(found.value.file) == Ok(StoredFile(sha, f)) <==> NoZeroHash(StoredFile(sha, f).tree))
    ensures var stored := StoredFile(sha, f);
            && stored.filesize == |f.content| && |stored.blocks| == BlockCount(|f.content|)
            && (forall b :: 0 <= b < |stored.blocks| ==> stored.blocks[b])
            && Shaped(stored.tree, |stored.blocks|)
            && Root(stored.tree) == Some(TreeHash(sha, LeafHashes(sha, f.content)))
            && RootHashOf(sha, f) == TreeHash(sha, LeafHashes(sha, f.content))
  {
    RootIsTreeHash(sha, LeafHashes(sha, f.content));
    RecordOfReadsBack(sha, f);
    AddedLookups(sha, db, f, f.name);
    SerializeRoundTrip(StoredFile(sha, f));
  }

  /** Whether adding a file leaves no older record that carries its name. */
  predicate SameRootAsBefore(sha: Digest, db: Store, f: DiskFile) {
    Listed(db, f.name) ==> RootOf(db, f.name) == RootHashOf(sha, f)
  }

  /** Adding a file keeps every record backed iff its name was not listed with another root
      hash: a file added again after it changed leaves its old record behind. */
  lemma AddKeepsBackedIffSameRoot(sha: Digest, db: Store, f: DiskFile)
    requires Intact(db) && Backed(db) && Plausible(f)
    ensures Backed(Added(sha, db, f)) <==> SameRootAsBefore(sha, db, f)
  {
    var db', r := Added(sha, db, f), RootHashOf(sha, f);
    RecordOfReadsBack(sha, f);
    AddedLookups(sha, db, f, f.name);
    if SameRootAsBefore(sha, db, f) {
      forall h | HashKey(h) in db' && db'[HashKey(h)] != [] ensures IsBacked(db', h) {
        AddedRecordBacked(sha, db, f, h);
      }
    } else {
      var was := RootOf(db, f.name);
      assert Resolves(db, f.name);
      assert FindByHash(db', was) == FindByHash(db, was);
      assert HashKey(was) in db' && db'[HashKey(was)] != [];
      assert !IsBacked(db', was);
    }
  }

  lemma AddedRecordBacked(sha: Digest, db: Store, f: DiskFile, h: seq<byte>)
    requires Backed(db) && Plausible(f) && SameRootAsBefore(sha, db, f)
    requires HashKey(h) in Added(sha, db, f) && Added(sha, db, f)[HashKey(h)] != []
    ensures IsBacked(Added(sha, db, f), h)
  {
    var db' := Added(sha, db, f);
    RecordOfReadsBack(sha, f);
    AddedLookups(sha, db, f, f.name);
    if h != RootHashOf(sha, f) {
      assert IsBacked(db, h) && FindByHash(db', h) == FindByHash(db, h);
      AddedLookups(sha, db, f, FindByHash(db, h).value.name);
    }
  }

  /** A file added, changed on disk and added again, then deleted: the old record is still
      there under the old root hash, and carries a name that is no longer listed. */
  lemma ChangedFileLeavesRecord(sha: Digest, db: Store, f: DiskFile, g: DiskFile)
    requires Plausible(f) && Plausible(g) && f.name == g.name && RootHashOf(sha, f) != RootHashOf(sha, g)
    ensures var twice := Added(sha, Added(sha, db, f), g);
            && Listed(twice, f.name) && !Listed(Deleted(twice, f.name), f.name)
            && FindByHash(Deleted(twice, f.name), RootHashOf(sha, f))
               == Some(Entry(f.name, f.time, Encode(StoredFile(sha, f))))
  {
    var one := Added(sha, db, f);
    RecordOfReadsBack(sha, f);
    AddedLookups(sha, db, f, f.name);
    AddedLookups(sha, one, g, f.name);
    DeletedLookups(Added(sha, one, g), f.name, f.name);
  }

  lemma DeletedLookups(db: Store, gone: seq<byte>, name: seq<byte>)
    requires Listed(db, gone)
    ensures Listed(Deleted(db, gone), name) <==> Listed(db, name) && name != gone
    ensures Listed(Deleted(db, gone), name) ==> RootOf(Deleted(db, gone), name) == RootOf(db, name)
    ensures forall h :: HashKey(h) in Deleted(db, gone) <==> HashKey(h) in db && h != RootOf(db, gone)
    ensures forall h :: HashKey(h) in Deleted(db, gone) ==> Deleted(db, gone)[HashKey(h)] == db[HashKey(h)]
  {
    KeysDiffer(name, gone);
    KeysDiffer(name, RootOf(db, gone));
    forall h
      ensures HashKey(h) in Deleted(db, gone) <==> HashKey(h) in db && h != RootOf(db, gone)
      ensures HashKey(h) in Deleted(db, gone) ==> Deleted(db, gone)[HashKey(h)] == db[HashKey(h)]
    {
      KeysDiffer(gone, h);
      KeysDiffer(h, RootOf(db, gone));
    }
  }

  ghost predicate AllDistinct(db: Store) {
    forall a, b :: Listed(db, a) && Listed(db, b) && a != b ==> RootOf(db, a) != RootOf(db, b)
  }

  /** In an intact index no two listed names share a root hash: its record carries one name. */
  lemma IntactIsDistinct(db: Store)
    requires Intact(db)
    ensures AllDistinct(db)
  {
    forall a, b | Listed(db, a) && Listed(db, b) && a != b ensures RootOf(db, a) != RootOf(db, b) {
      assert Resolves(db, a) && Resolves(db, b);
    }
  }

  /** Deleting a file keeps an intact index intact. */
  lemma DeleteKeepsIntact(db: Store, name: seq<byte>)
    requires Intact(db) && Listed(db, name)
    ensures Intact(Deleted(db, name))
  {
    IntactIsDistinct(db);
    forall other | Listed(Deleted(db, name), other) ensures Resolves(Deleted(db, name), other) {
      DeletedLookups(db, name, other);
      assert Resolves(db, other);
    }
  }

  lemma DeleteKeepsBacked(db: Store, name: seq<byte>)
    requires Backed(db) && Listed(db, name)
    ensures Backed(Deleted(db, name))
  {
    var db' := Deleted(db, name);
    forall h | HashKey(h) in db' && db'[HashKey(h)] != [] ensures IsBacked(db', h) {
      DeletedLookups(db, name, name);
      assert IsBacked(db, h);
      DeletedLookups(db, name, FindByHash(db, h).value.name);
    }
  }

  // ---- Opening

  function WithMarkers(stored: Store): Store {
    stored[[0] := []][[1] := []][[2] := []][[3] := []]
  }

  /** Opening puts the four one-byte keys and leaves every other one. */
  lemma MarkersOnly(stored: Store, key: seq<byte>)
    ensures key in WithMarkers(stored) <==> key in stored || (|key| == 1 && key[0] < 4)
    ensures key in WithMarkers(stored) ==>
              WithMarkers(stored)[key] == if |key| == 1 && key[0] < 4 then [] else stored[key]
  {
    assert |key| == 1 ==> key == [key[0]];
  }

  /** Opening lists the names that were stored, and keeps an intact index intact whose marker
      holds no record, as no opened index's does. */
  lemma OpeningKeepsIntact(stored: Store)
    ensures forall name :: Listed(WithMarkers(stored), name) <==> Listed(stored, name)
    ensures Intact(stored) && ([0] !in stored || stored[[0]] == []) ==> Intact(WithMarkers(stored))
    ensures Backed(stored) ==> Backed(WithMarkers(stored))
  {
    var db := WithMarkers(stored);
    forall name
      ensures Listed(db, name) <==> Listed(stored, name)
      ensures Listed(db, name) ==> RootOf(db, name) == RootOf(stored, name)
    {
      assert name != [] ==> |NameKey(name)| > 1;
    }
    if Intact(stored) && ([0] !in stored || stored[[0]] == []) {
      forall name | Listed(db, name) ensures Resolves(db, name) {
        assert Resolves(stored, name);
        var key := HashKey(RootOf(stored, name));
        assert key[0] == 0 && stored[key] != [];
        assert key != [0];
        assert db[key] == stored[key];
      }
    }
    if Backed(stored) {
      forall h | HashKey(h) in db && db[HashKey(h)] != [] ensures IsBacked(db, h) {
        assert HashKey(h)[0] == 0 && HashKey(h) != [0];
        assert IsBacked(stored, h);
      }
    }
  }

  lemma NewIndexIsIntact()
    ensures Intact(WithMarkers(map[])) && Backed(WithMarkers(map[]))
    ensures forall name :: !Listed(WithMarkers(map[]), name)
  {
    OpeningKeepsIntact(map[]);
  }

  // ---- delDirectory

  /** The path with a slash at its end. */
  function Slashed(path: seq<byte>): seq<byte>
    requires path != []
  {
    if path[|path| - 1] == SLASH then path else path + [SLASH]
  }

  /** The listed names that start with this prefix. */
  function ListedUnder(db: Store, prefix: seq<byte>): set<seq<byte>> {
    set key | key in db && |key| > 1 && key[0] == 1 && prefix <= key[1..] :: key[1..]
  }

  ghost predicate AllListed(db: Store, names: set<seq<byte>>) {
    forall name :: name in names ==> Listed(db, name)
  }

  /** The map without these names and without their records. */
  ghost function Purged(db: Store, gone: set<seq<byte>>): Store
    requires AllListed(db, gone)
  {
    db - (set name | name in gone :: NameKey(name)) - (set name | name in gone :: HashKey(RootOf(db, name)))
  }

  lemma ListedUnderMeaning(db: Store, prefix: seq<byte>, name: seq<byte>)
    ensures name in ListedUnder(db, prefix) <==> Listed(db, name) && prefix <= name
  {
    if Listed(db, name) {
      assert NameKey(name)[1..] == name;
    }
    if key :| key in db && |key| > 1 && key[0] == 1 && prefix <= key[1..] && key[1..] == name {
      assert key == NameKey(name);
    }
  }

  lemma UnderIsListed(db: Store, prefix: seq<byte>)
    ensures AllListed(db, ListedUnder(db, prefix))
  {
    forall name | name in ListedUnder(db, prefix) ensures Listed(db, name) {
      ListedUnderMeaning(db, prefix, name);
    }
  }

  lemma PurgedLookups(db: Store, gone: set<seq<byte>>, name: seq<byte>)
    requires AllListed(db, gone)
    ensures Listed(Purged(db, gone), name) <==> Listed(db, name) && name !in gone
    ensures Listed(Purged(db, gone), name) ==> RootOf(Purged(db, gone), name) == RootOf(db, name)
    ensures forall h :: HashKey(h) in Purged(db, gone) <==>
              HashKey(h) in db && forall other :: other in gone ==> RootOf(db, other) != h
    ensures forall h :: HashKey(h) in Purged(db, gone) ==> Purged(db, gone)[HashKey(h)] == db[HashKey(h)]
  {
    forall other | other in gone
      ensures NameKey(name) == NameKey(other) <==> name == other
      ensures NameKey(name) != HashKey(RootOf(db, other))
    {
      KeysDiffer(name, other);
      KeysDiffer(name, RootOf(db, other));
    }
    forall h
      ensures HashKey(h) in Purged(db, gone) <==>
                HashKey(h) in db && forall other :: other in gone ==> RootOf(db, other) != h
    {
      forall other | other in gone
        ensures NameKey(other) != HashKey(h)
        ensures HashKey(h) == HashKey(RootOf(db, other)) <==> h == RootOf(db, other)
      {
        KeysDiffer(other, h);
        KeysDiffer(h, RootOf(db, other));
      }
    }
  }

  lemma PurgeOneMore(db: Store, gone: set<seq<byte>>, name: seq<byte>)
    requires AllListed(db, gone) && Listed(db, name) && name !in gone
    ensures Listed(Purged(db, gone), name)
    ensures Deleted(Purged(db, gone), name) == Purged(db, gone + {name})
  {
    PurgedLookups(db, gone, name);
    var names, names' := set n | n in gone :: NameKey(n), set n | n in gone + {name} :: NameKey(n);
    var roots := set n | n in gone :: HashKey(RootOf(db, n));
    var roots' := set n | n in gone + {name} :: HashKey(RootOf(db, n));
    assert names' == names + {NameKey(name)};
    assert roots' == roots + {HashKey(RootOf(db, name))};
  }

  /** Purging names keeps an intact index intact: exactly they are gone, and every other
      name resolves to the record it had. */
  lemma PurgeKeepsIntact(db: Store, gone: set<seq<byte>>)
    requires Intact(db) && AllListed(db, gone)
    ensures Intact(Purged(db, gone))
    ensures forall name :: Listed(Purged(db, gone), name) <==> Listed(db, name) && name !in gone
    ensures forall name :: Listed(Purged(db, gone), name) ==> FindByName(Purged(db, gone), name) == FindByName(db, name)
  {
    IntactIsDistinct(db);
    forall name
      ensures Listed(Purged(db, gone), name) <==> Listed(db, name) && name !in gone
      ensures Listed(Purged(db, gone), name) ==>
                Resolves(Purged(db, gone), name) && FindByName(Purged(db, gone), name) == FindByName(db, name)
    {
      PurgedLookups(db, gone, name);
      if Listed(db, name) {
        assert Resolves(db, name);
      }
    }
  }

  lemma PurgeKeepsBacked(db: Store, gone: set<seq<byte>>)
    requires Backed(db) && AllListed(db, gone)
    ensures Backed(Purged(db, gone))
  {
    var db' := Purged(db, gone);
    forall h | HashKey(h) in db' && db'[HashKey(h)] != [] ensures IsBacked(db', h) {
      PurgedLookups(db, gone, []);
      assert IsBacked(db, h);
      PurgedLookups(db, gone, FindByHash(db, h).value.name);
    }
  }

  /** Halfway through delDirectory: the listed names still to visit and those visited, of
      which the ones under the path are gone. */
  ghost predicate Visiting(was: Store, path: seq<byte>, todo: set<seq<byte>>, visited: set<seq<byte>>,
                           gone: set<seq<byte>>)
  {
    && (forall key :: key in was && |key| > 1 && key[0] == 1 <==> key in todo || key in visited)
    && todo !! visited
    && (forall name :: name in gone <==> NameKey(name) in visited && path <= name)
    && AllListed(was, gone)
  }

  lemma VisitOne(was: Store, path: seq<byte>, todo: set<seq<byte>>, visited: set<seq<byte>>, gone: set<seq<byte>>,
                 name: seq<byte>)
    requires Visiting(was, path, todo, visited, gone) && NameKey(name) in todo
    ensures Listed(was, name) && name !in gone
    ensures Visiting(was, path, todo - {NameKey(name)}, visited + {NameKey(name)},
                     if path <= name then gone + {name} else gone)
  {
    var key, gone' := NameKey(name), if path <= name then gone + {name} else gone;
    forall other ensures other in gone' <==> NameKey(other) in visited + {key} && path <= other {
      KeysDiffer(other, name);
    }
  }

  lemma VisitedAll(was: Store, path: seq<byte>, visited: set<seq<byte>>, gone: set<seq<byte>>)
    requires path != [] && Visiting(was, path, {}, visited, gone)
    ensures gone == ListedUnder(was, path)
  {
    forall name ensures name in gone <==> name in ListedUnder(was, path) {
      ListedUnderMeaning(was, path, name);
      assert path <= name ==> name != [];
    }
  }

  /** The name lies in the directory: it starts with the path, and a slash follows unless the
      path ends in one. */
  predicate InDirectory(path: seq<byte>, name: seq<byte>)
    requires path != []
  {
    path <= name && (path[|path| - 1] == 47 || (|name| > |path| && name[|path|] == 47))
  }

  lemma SlashedIsDirectory(path: seq<byte>, name: seq<byte>)
    requires path != []
    ensures Slashed(path) <= name <==> InDirectory(path, name)
  {
    var slashed := Slashed(path);
    if path[|path| - 1] != 47 {
      assert slashed[..|path|] == path && slashed[|path|] == 47;
      if slashed <= name {
        assert name[..|path|] == slashed[..|path|] && name[|path|] == slashed[|path|];
      }
      if InDirectory(path, name) {
        assert name[..|path| + 1] == path + [47];
      }
    }
  }

  /** Exactly the names in the directory are gone, and in an intact index every other name
      still finds the record it found before. */
  lemma DirectoryIsPurged(db: Store, path: seq<byte>)
    requires path != []
    ensures AllListed(db, ListedUnder(db, Slashed(path)))
    ensures var db' := Purged(db, ListedUnder(db, Slashed(path)));
            && (forall name :: Listed(db', name) <==> Listed(db, name) && !InDirectory(path, name))
            && (Intact(db) ==>
                  Intact(db') && forall name :: Listed(db', name) ==> FindByName(db', name) == FindByName(db, name))
  {
    var gone := ListedUnder(db, Slashed(path));
    UnderIsListed(db, Slashed(path));
    if Intact(db) {
      PurgeKeepsIntact(db, gone);
    }
    forall name ensures Listed(Purged(db, gone), name) <==> Listed(db, name) && !InDirectory(path, name) {
      PurgedLookups(db, gone, name);
      ListedUnderMeaning(db, Slashed(path), name);
      SlashedIsDirectory(path, name);
    }
  }

  /** The records of a directory go with their names: in an intact index, a root hash still
      has a record iff it had one that is not of a name in the directory. */
  lemma PurgedRecords(db: Store, path: seq<byte>, h: seq<byte>)
    requires path != [] && AllListed(db, ListedUnder(db, Slashed(path)))
    ensures HashKey(h) in Purged(db, ListedUnder(db, Slashed(path))) <==>
            HashKey(h) in db && forall name :: Listed(db, name) && InDirectory(path, name) ==> RootOf(db, name) != h
  {
    var gone := ListedUnder(db, Slashed(path));
    PurgedLookups(db, gone, []);
    forall name ensures name in gone <==> Listed(db, name) && InDirectory(path, name) {
      ListedUnderMeaning(db, Slashed(path), name);
      SlashedIsDirectory(path, name);
    }
  }

  class HashDatabase {
    const sha: Digest
    var db: Store

    /** Opens an index, new or stored, and puts the markers. */
    constructor (sha: Digest, stored: Store)
      ensures this.sha == sha && db == WithMarkers(stored)
    {
      this.sha := sha;
      db := stored;
      new;
      db := db[[0] := []];
      db := db[[1] := []];
      db := db[[2] := []];
      db := db[[3] := []];
    }

    method AddFile(f: DiskFile)
      requires Plausible(f)
      modifies this
      ensures db == Added(sha, old(db), f)
    {
      var file := Open(sha, f.content);
      assert file.Contents() == StoredFile(sha, f);
      RootIsLast(file.tree);
      var hash := file.tree[|file.tree| - 1][0].value;
      var bytes, size := file.Serialize(null);
      var record := f.name + [0] + LittleEndian(f.time, TIME_BYTES) + bytes[..size];
      db := db[HashKey(hash) := record];
      db := db[NameKey(f.name) := hash];
    }

    /** find; None stands for a failing assertion. */
    method Find(name: seq<byte>) returns (entry: Option<Entry>)
      requires name != []
      ensures entry == FindByName(db, name)
    {
      if NameKey(name) !in db {
        return None;
      }
      var key := HashKey(db[NameKey(name)]);
      if key !in db {
        return None;
      }
      entry := Unserialize(db[key]);
    }

    /** find by root hash. */
    method FindHash(h: Hash) returns (entry: Option<Entry>)
      ensures entry == FindByHash(db, h)
    {
      if HashKey(h) !in db {
        return None;
      }
      entry := Unserialize(db[HashKey(h)]);
    }

    method DelFile(name: seq<byte>)
      requires Listed(db, name)
      modifies this
      ensures db == Deleted(old(db), name)
    {
      var hash := db[NameKey(name)];
      db := db - {NameKey(name)};
      db := db - {HashKey(hash)};
    }

    /** The character loop of delDirectory. */
    method HasPrefix(name: seq<byte>, path: seq<byte>) returns (found: bool)
      ensures found <==> path <= name
    {
      var i: nat := 0;
      while i < |path| && i < |name|
        invariant i <= |path| && i <= |name| && path[..i] == name[..i]
      {
        if path[i] != name[i] {
          return false;
        }
        i := i + 1;
      }
      return |name| >= |path|;
    }

    /** Visits the listed names of a snapshot once each; LevelDB's order plays no part. */
    method DelDirectory(path: seq<byte>)
      requires path != []
      modifies this
      ensures AllListed(old(db), ListedUnder(old(db), Slashed(path)))
      ensures db == Purged(old(db), ListedUnder(old(db), Slashed(path)))
      ensures forall name :: Listed(db, name) <==> Listed(old(db), name) && !InDirectory(path, name)
      ensures Intact(old(db)) ==>
                Intact(db) && forall name :: Listed(db, name) ==> FindByName(db, name) == FindByName(old(db), name)
    {
      var slashed := if path[|path| - 1] != SLASH then path + [SLASH] else path;
      ghost var was := db;
      ghost var gone: set<seq<byte>>, visited: set<seq<byte>> := {}, {};
      var todo := set key | key in db && |key| > 1 && key[0] == 1;
      assert Purged(was, gone) == db;
      while todo != {}
        invariant Visiting(was, slashed, todo, visited, gone)
        invariant db == Purged(was, gone)
      {
        var key :| key in todo;
        var name := key[1..];
        assert key == NameKey(name);
        VisitOne(was, slashed, todo, visited, gone, name);
        var found := HasPrefix(name, slashed);
        if found {
          PurgeOneMore(was, gone, name);
          DelFile(name);
          gone := gone + {name};
        }
        todo, visited := todo - {key}, visited + {key};
      }
      VisitedAll(was, slashed, visited, gone);
      DirectoryIsPurged(was, path);
    }
  }

  // ---- Runs

  datatype Action = Add(f: DiskFile) | Delete(name: seq<byte>) | DeleteUnder(path: seq<byte>)

  ghost predicate Allowed(sha: Digest, db: Store, a: Action) {
    match a
    case Add(f) => Plausible(f) && Unshared(db, f.name, RootHashOf(sha, f))
    case Delete(name) => Listed(db, name)
    case DeleteUnder(path) => path != []
  }

  ghost function Done(sha: Digest, db: Store, a: Action): Store
    requires Allowed(sha, db, a)
  {
    match a
    case Add(f) => Added(sha, db, f)
    case Delete(name) => Deleted(db, name)
    case DeleteUnder(path) =>
      UnderIsListed(db, Slashed(path));
      Purged(db, ListedUnder(db, Slashed(path)))
  }

  ghost predicate AllowedRun(sha: Digest, db: Store, actions: seq<Action>)
    decreases |actions|
  {
    actions == [] ||
    (Allowed(sha, db, actions[0]) && AllowedRun(sha, Done(sha, db, actions[0]), actions[1..]))
  }

  ghost function AfterRun(sha: Digest, db: Store, actions: seq<Action>): Store
    requires AllowedRun(sha, db, actions)
    decreases |actions|
  {
    if actions == [] then db else AfterRun(sha, Done(sha, db, actions[0]), actions[1..])
  }

  lemma ActionKeepsIntact(sha: Digest, db: Store, a: Action)
    requires Intact(db) && Allowed(sha, db, a)
    ensures Intact(Done(sha, db, a))
  {
    match a
    case Add(f) => AddKeepsIntactIffUnshared(sha, db, f);
    case Delete(name) => DeleteKeepsIntact(db, name);
    case DeleteUnder(path) =>
      UnderIsListed(db, Slashed(path));
      PurgeKeepsIntact(db, ListedUnder(db, Slashed(path)));
  }

  /** As long as no file is added whose root hash another listed name has, any run of
      additions, deletions and directory deletions leaves every listed name resolving to a
      record that carries it. */
  lemma {:induction false} RunKeepsIntact(sha: Digest, db: Store, actions: seq<Action>)
    requires Intact(db) && AllowedRun(sha, db, actions)
    ensures Intact(AfterRun(sha, db, actions))
    decreases |actions|
  {
    if actions != [] {
      ActionKeepsIntact(sha, db, actions[0]);
      RunKeepsIntact(sha, Done(sha, db, actions[0]), actions[1..]);
    }
  }

  /** Every addition of the run is of a new name, or of a file that has not changed. */
  ghost predicate UnchangedRun(sha: Digest, db: Store, actions: seq<Action>)
    requires AllowedRun(sha, db, actions)
    decreases |actions|
  {
    actions == [] ||
    (&& (actions[0].Add? ==> SameRootAsBefore(sha, db, actions[0].f))
     && UnchangedRun(sha, Done(sha, db, actions[0]), actions[1..]))
  }

  /** Then both directions of the index stay whole: every listed name resolves to its own
      record, and every record is reached from the name it carries. */
  lemma {:induction false} RunKeepsBothWays(sha: Digest, db: Store, actions: seq<Action>)
    requires Intact(db) && Backed(db) && AllowedRun(sha, db, actions) && UnchangedRun(sha, db, actions)
    ensures Intact(AfterRun(sha, db, actions)) && Backed(AfterRun(sha, db, actions))
    decreases |actions|
  {
    if actions != [] {
      ActionKeepsIntact(sha, db, actions[0]);
      match actions[0] {
        case Add(f) => AddKeepsBackedIffSameRoot(sha, db, f);
        case Delete(name) => DeleteKeepsBacked(db, name);
        case DeleteUnder(path) =>
          UnderIsListed(db, Slashed(path));
          PurgeKeepsBacked(db, ListedUnder(db, Slashed(path)));
      }
      RunKeepsBothWays(sha, Done(sha, db, actions[0]), actions[1..]);
    }
  }

  /** Two copies of one file, one deleted: the other is still listed but not found. */
  lemma TwinIsLost(sha: Digest, db: Store, f: DiskFile, g: DiskFile)
    requires Plausible(f) && Plausible(g) && f.content == g.content && f.name != g.name
    ensures var both := Added(sha, Added(sha, db, f), g);
            && Listed(both, f.name) && Listed(both, g.name)
            && Listed(Deleted(both, f.name), g.name)
            && FindByName(Deleted(both, f.name), g.name) == None
  {
    var one := Added(sha, db, f);
    AddedLookups(sha, db, f, f.name);
    AddedLookups(sha, one, g, f.name);
    AddedLookups(sha, one, g, g.name);
    DeletedLookups(Added(sha, one, g), f.name, g.name);
  }
}
