# Lecista, modelled and proved in Dafny

Lecista shares files over a LAN: nodes of one network elect a gateway, search by multicast
through the gateways of the other networks, and fetch 16 MB blocks over TCP, each block
carrying the hashes that tie it to the root of the file's hash tree. This project models
that core and proves what it is for.

`dafny verify dfyconfig.toml` checks the whole project. A digest is a parameter `sha` of
every member that hashes, so nothing is assumed about it: where the strength of the digest
matters, the theorem names two byte strings that would have to collide.

## What is proved

**The hash tree** (`Merkle`, `PartialTree`, `Files`, `FileFormat`, `CompleteFiles`). The
tree built level by level, an odd last node promoted unchanged, has the root of a top-down
definition that splits at the largest power of two below the size (section 2.1 of RFC 6962
without its prefix bytes), for every number of blocks. From an empty tree, after any writes
in any order and with overwrites, a node is null iff some leaf below it was never written
and is otherwise the Merkle hash of the last writes below it. Hashing any content, empty or
not, leaves no null node and the Merkle root of the content's blocks. The byte form reads
back iff no known hash is all zeros, and reading fails iff the input is too short.

**Block proofs and downloads** (`BlockProof`, `Downloads`, `AsWritten`). A full tree's own
sibling list folds to its root; two lists that fold to one root agree or exhibit a
collision, and `FindCollision` computes it. Over every sequence of `checkBlock` calls with
arbitrary arguments that starts from a root hash, either a call exhibits a collision or
every known node is the true one, exactly the honestly delivered blocks are marked, the
root never changes, and a complete download has the uploader's whole tree.

**The transfer** (`Sending`, `Blocks`, `Peers`, `Transfers`). The chunks that are sent
concatenate to exactly the block; the receiver, fed the stream in any fragments its
requests allow, ends with the sent list and the digest of exactly the data, at the last
fragment and not before. Whatever a remote sends, a connection has at most one operation in
flight, of the size its state expects, so no assertion on sizes or states fires, and a
failure closes it once and for all. Request,
upload, reception and `checkBlock` compose: a file whose blocks are fetched, one connection
each, arrives whole.

**The network** (`Elections`, `Rounds`, `Agreement`, `Frames`, `Gateways`, `Handlers`,
`Announcements`, `Relay`, `SearchReplies`). Through any starts, restarts, cancelled waits,
early, late and repeated packets, a node's election round counts exactly the candidates
received between its start and the first completion handled after it. When the last rounds
of all nodes count each other's current candidates, all name one winner. The documented
winner rule is kept for every choice of ids iff the number of candidates divides 2^32.
After any history of elections and announcements, lost ones and outlived gateways included,
a relayed command is handled at most once by any node, and the packets it costs are counted
from the start; with full tables and no losses the exact set of nodes that handle it is
given, and so is which announcements fill the tables. Frames and search replies round-trip
exactly up to a stated length.

**The index** (`HashIndex`, `Sharing`). Any run of additions, deletions and directory
deletions keeps every listed name resolving to a record that carries it, as long as no two
names are given one root hash, and every record reached from its name, as long as no
changed file is added again; both conditions are shown to be exact for an addition. A file
that was added and spared since arrives whole at whoever asks for its root hash.

## Where the code departs from its documentation or its evident intent

- `checkBlock` wants a list as long as the number of levels, but `hashList` makes one
  shorter (`src/library/filesystem/File.cpp:92,125`). As written it never returns true
  within bounds. It also hashes the zero entry of an orphan level into the fold and writes
  it back past the end of the level; and it does not test the block number.
  `Files.File.CheckBlock` has the evident intent: the length of `hashList`, orphan levels
  skipped in fold and write-back. `AsWritten` keeps the source's form, with the exact
  conditions under which its parts work.
- The documented winner is the sum of the ids modulo the number of candidates
  (`network/multicast_protocol:38-42`). The code adds in 32 bits; for n candidates it names
  that one whatever their ids iff n divides 2^32.
- An election restarted while its timer runs is documented to start over. As written, the
  cancelled wait's completion clears the in-progress flag, and from then on until its timer
  the node drops every candidate. A restarted round counts only what arrives before that
  completion is handled; when it is handled before the next packet, the node elects itself.
- A gateway that receives RemoteGateway is documented to answer with its own address
  (`network/multicast_protocol:73-76`). The code does not: of two networks that elect once,
  the earlier gateway knows the later one and not the reverse.
- `forward` takes the size of the arguments as a signed character: a gateway relays a
  forwardable command iff it has at most 127 argument bytes, and fails on any longer one
  before it has sent anything.
- A block's start is a 32-bit product (`src/library/network/Peer.cpp:154`): from block 269
  on other bytes are sent than the ones asked for.
- `Block::init` keeps the hasher, so a second transfer through one `Block` also hashes what
  the hasher held. The model's hasher holds what it was fed; this stands in for a SHA-1
  context that is updated after its digest was taken, whose result the source leaves
  undefined. An empty block is never finished by its own stream.
- `BODY_MAXSIZE` counts 251 bytes, but the size byte also counts the command: a reply of
  251 argument bytes is printed and then dropped by its receiver, as is an empty one. A
  forwarded command grows by one byte, so one of 250 argument bytes reaches only its own
  network.
- A node does not dispatch its own multicasts, so a command that originates at a gateway is
  not relayed.
- Two names with the same content share one record: deleting one name loses the other.
- A file that changed and is added again leaves its old record in the index; deleting the
  name does not remove it.

## Model

| member | source | states |
|---|---|---|
| Merkle.RootIsTreeHash | src/library/filesystem/File.cpp:49-88 | The root of the level-by-level tree with orphan promotion is the top-down RFC 6962 hash of the leaves, for every number of leaves from one on |
| Merkle.GrowKeepsTopDown | src/library/filesystem/File.cpp:65-87 | One round of pairing, promoting an odd last node, does not change the top-down hash of a level |
| Merkle.TopDownMeaning | src/library/filesystem/File.cpp:65-87 | The top-down hash over possibly null leaves is null iff a leaf is null, and else their Merkle hash |
| Merkle.NodeCoversRange | src/library/filesystem/File.cpp:60-88 | Node i of level k is exactly the hash of leaves i·2^k up to min((i+1)·2^k, n) |
| Merkle.LevelWidth | src/library/filesystem/File.cpp:49-58 | Level k has ceil(n / 2^k) nodes |
| Merkle.RootIsLast | src/library/filesystem/File.cpp:49-58 | The last level holds the root and nothing else |
| PartialTree.SetHashRebuilds | src/library/filesystem/File.cpp:60-88 | Updating one leaf-to-root path gives the tree that would be built anew over the updated leaves |
| PartialTree.WritesRebuild | src/library/filesystem/File.cpp:60-88 | After any writes the tree depends only on the last write to each leaf, not on their order |
| PartialTree.NodesAfterWrites | src/library/filesystem/File.cpp:60-88 | From an empty tree: a node is null iff some leaf below was never written, and else it is the Merkle hash of the last writes below it |
| PartialTree.SetHashBetween | src/library/filesystem/File.cpp:60-88 | Writing a true leaf into a partial tree that also holds proof nodes keeps it between its known leaves and the true tree and forgets nothing |
| Files.File.constructor | src/library/filesystem/File.cpp:5-10 | A new file has max(1, ceil(size / block size)) unmarked blocks and a tree that is null but for the root |
| Files.File.InitTree | src/library/filesystem/File.cpp:49-58 | The loop lays out the levels n, ceil(n/2), ..., 1, null but for the given root |
| Files.File.SetHash | src/library/filesystem/File.cpp:60-88 | The in-place loop performs the path update of PartialTree.SetHash and changes only the tree |
| Files.File.HashList | src/library/filesystem/File.cpp:90-114 | The loop returns the sibling slot of each level, and a zero hash where the node is an orphan |
| Files.File.CheckBlock | src/library/filesystem/File.cpp:116-164 | Returns true iff the list has the length of hashList and folds to the root; then the proof is grafted and the block marked, and otherwise nothing changes |
| Files.File.FoldUp | src/library/filesystem/File.cpp:121-143 | The loop folds a hash and a list upwards, left or right by position, orphan levels skipped |
| Files.File.WriteSiblings | src/library/filesystem/File.cpp:150-156 | The loop writes each list entry above the bottom level at the place of the sibling, if there is one |
| Files.File.IsComplete | src/library/filesystem/File.cpp:166-175 | True iff every block is marked |
| Files.File.SerializedSize | src/library/filesystem/File.cpp:177-188 | The sum over the levels is the size of the encoding for that many blocks |
| Files.File.Serialize | src/library/filesystem/File.cpp:190-195 | Given a buffer or none, exactly serializedSize bytes are written, they are the encoding, and the rest of a given buffer is kept |
| Files.File.Fill | src/library/filesystem/File.cpp:197-213 | The moving index writes size, packed states and nodes one after the other and stops at the encoded size |
| Files.File.PackStates | src/library/filesystem/File.cpp:216-228 | Writes exactly the packed states at their place and returns their number of bytes |
| Files.File.UnpackStates | src/library/filesystem/File.cpp:230-237 | Sets every block to its bit and returns the number of bytes |
| Files.File.Unserialize | src/library/filesystem/File.cpp:12-37 | The byte constructor fails iff decoding does, and else gives a valid file whose contents are the decoded ones |
| FileFormat.SerializeRoundTrip | src/library/filesystem/File.cpp:12-37 | Reading back what serialize wrote restores size and states, and every node iff no known hash is all zeros |
| FileFormat.ThrowsIffTooShort | src/library/filesystem/File.cpp:23-27 | With a readable header the byte constructor throws iff the given size is below the serialized size |
| FileFormat.EncodedSize | src/library/filesystem/File.cpp:177-214 | serialize writes exactly serializedSize bytes |
| FileFormat.NodesAreLeavesJoinsAndOrphans | src/library/filesystem/File.cpp:49-58 | A tree over n blocks has 2n - 1 nodes plus one for each promoted orphan, and fewer orphans than levels |
| FileFormat.PackStatesRoundTrip | src/library/filesystem/File.cpp:216-237 | Unpacking packed block states gives them back, whatever follows them |
| FileFormat.BlockCount | src/library/filesystem/File.cpp:5-8 | The least number of blocks that holds the size, and one for the empty file |
| FileFormat.StoredLayout | src/library/filesystem/File.cpp:197-228 | The stored size lowest byte first, then one bit per block: bit b % 8 of byte b / 8 is block b |
| FileFormat.NodeLayout | src/library/filesystem/File.cpp:202-211 | Then every node in 20 bytes, level by level from the leaves, all zeros if it is null |
| BlockProof.HashListFoldsToRoot | src/library/filesystem/File.cpp:90-145 | Completeness: in a full tree any block's own hash and list fold to the root |
| BlockProof.EqualFoldsAgreeOrCollide | src/library/filesystem/File.cpp:121-145 | Soundness: two proofs for one block that fold to one root agree, or FindCollision returns two different hasher inputs with one digest |
| BlockProof.AgreeingProofsFoldEqually | src/library/filesystem/File.cpp:121-145 | Conversely, proofs that agree wherever the path has a sibling fold equally |
| BlockProof.GraftBetween | src/library/filesystem/File.cpp:145-161 | Grafting an honest proof keeps the tree between its known leaves and the true tree and forgets nothing |
| BlockProof.GraftKnowsList | src/library/filesystem/File.cpp:145-161 | After an honest graft the receiver's hashList for that block is the uploader's |
| BlockProof.GraftKnowsPath | src/library/filesystem/File.cpp:145-161 | After any graft every node from a block with a sibling up to the root is known |
| AsWritten.NeverAccepts | src/library/filesystem/File.cpp:116-164 | For any block number the written checkBlock never returns true within bounds, rejects every list that hashList makes, and indexes out of range exactly when length and fold match |
| AsWritten.LengthFixedIsRepairedIffNoOrphan | src/library/filesystem/File.cpp:125-164 | With only the length test corrected it is the repaired one on paths without an orphan level; on all others, and for block numbers out of range, it still never returns true within bounds |
| AsWritten.WrittenFoldIffNoOrphan | src/library/filesystem/File.cpp:107-145 | The written fold accepts every full tree's own list for a block, whatever the digest and the leaves, iff its path has no orphan level |
| AsWritten.NoOrphansIffPowerOfTwo | src/library/filesystem/File.cpp:49-58 | No block of a file has an orphan level iff the number of blocks is a power of two |
| AsWritten.OrphanPathIsRefused | src/library/filesystem/File.cpp:107-145 | For every digest and file: on a path with an orphan level the written fold of the block's own list misses the root, unless the tree has an all-zero node or the walk exhibits a collision or a hash that zero padding brings back to itself |
| AsWritten.ThirdOfThree | src/library/filesystem/File.cpp:107-145 | For every digest the last of three blocks' own list folds to the root as written iff zero padding leaves its hash as it is or two named inputs collide |
| Downloads.DownloadIsSafe | src/library/filesystem/File.cpp:116-175 | From the root hash alone, after any checkBlock calls: a call exhibits a collision, or every known node is the true one, the root is unchanged, marked blocks have their true hash, and a complete file has the whole true tree |
| Downloads.RunKeepsSafe | src/library/filesystem/File.cpp:116-164 | Any run keeps the download invariant, forgets no node, and marks exactly the blocks that some call brought honestly |
| Downloads.CheckKeepsSafe | src/library/filesystem/File.cpp:116-164 | One call keeps the invariant and marks its block iff it is honest |
| Downloads.AcceptedIffHonest | src/library/filesystem/File.cpp:116-148 | Barring a collision a call is accepted iff its hash and its siblings are the true ones |
| Downloads.DownloadCompletes | src/library/filesystem/File.cpp:90-175 | Every block of a complete peer, in any order and among any other calls without a collision, completes the file with the peer's tree |
| Downloads.BroughtCanBeServed | src/library/filesystem/File.cpp:90-164 | Once a block was brought honestly its hash list is the uploader's, through the rest of any run |
| CompleteFiles.Open | src/library/filesystem/CompleteFile.cpp:6-13 | For every content, including the empty one: all blocks marked, no null node, and the root is the Merkle hash of the content's blocks |
| CompleteFiles.HashContent | src/library/filesystem/CompleteFile.cpp:15-41 | The block loop fills the tree with the digest of each block |
| CompleteFiles.HashBlock | src/library/filesystem/CompleteFile.cpp:24-37 | Reads of at most 1 MB feed the hasher exactly the bytes of block i |
| CompleteFiles.BlocksCoverContent | src/library/filesystem/CompleteFile.cpp:15-41 | The blocks in order are the content, none longer than the block size, none empty unless the content is |
| Blocks.Block.Download | src/library/network/Block.cpp:28-106 | The in-place state machine performs Step and keeps the receiver sound |
| Blocks.Block.Init | src/library/network/Block.cpp:20-26 | Resets phase and counters and leaves hasher, list and hash alone |
| Blocks.TransferRoundTrip | src/library/network/Block.cpp:28-106 | A header and non-empty data in any fragments that obey the requests: the receiver ends with the sent list and size, has hashed exactly the data, and nothing is unread |
| Blocks.ExtraIsCut | src/library/network/Block.cpp:82-97 | Whatever follows the announced size, the receiver ends with the digest of exactly that many bytes |
| Blocks.Requests | src/library/network/Block.cpp:34-105 | download asks for four bytes for a number, twenty for a hash, whatever comes for data, and returns false exactly when the data is complete |
| Blocks.StartsOver | src/library/network/Block.cpp:20-41 | A Block starts over with its counters at zero and keeps hasher, list and hash |
| Blocks.HeaderLayout | src/library/network/Block.cpp:30-32 | A header is the number of hashes, the hashes in order, and the size |
| Blocks.WaitingUntilLast | src/library/network/Block.cpp:82-105 | On any shorter run of those fragments download still returns true |
| Blocks.EmptyBlockWaits | src/library/network/Block.cpp:43-98 | The stream of an empty block, with any hash list and in any fragments, leaves the receiver waiting for data and reports no hash |
| Blocks.ReusedHasher | src/library/network/Block.cpp:20-90 | A whole transfer ends with the digest of its data iff the hasher had been fed nothing before, or the digest collides |
| Blocks.SecondTransfer | src/library/network/Block.cpp:20-90 | A second transfer through one Block ends with the digest of both blocks' data |
| Sending.BuildHeader | src/library/network/Peer.cpp:134-158 | The buffer filled by a moving index holds count, hashes and size in network order |
| Sending.ChunksConcatenate | src/library/network/Peer.cpp:223-237 | The chunks of all on_write calls concatenate to exactly the range asked for when its end is the end of file or whole chunks away |
| Sending.ChunksExactIffAligned | src/library/network/Peer.cpp:223-237 | For every range of the file exactly its bytes are sent iff it ends with the file or after whole chunks |
| Sending.UnalignedEndOvershoots | src/library/network/Peer.cpp:223-237 | Any other range is overshot |
| Sending.ChunkSizes | src/library/network/Peer.cpp:223-232 | Every chunk but the last has 500 kB, the last no more and at least a byte |
| Sending.SentIsRange | src/library/network/Peer.cpp:154-158 | An upload sends exactly the bytes from its start index to its end index, and at least one |
| Sending.SendsItsBlockIffStartFits | src/library/network/Peer.cpp:154-156 | In every file that has the block the bytes sent are the block's, iff its number is at most 268 |
| Peers.RunsAreConsistent | src/library/network/Peer.cpp:21-119 | Whatever is received and however operations end: at most one is in flight, it suits the state, no assertion on sizes or states fires, the close handler is posted once, on closing, and without an abort the connection never stalls |
| Peers.ReactKeepsConsistent | src/library/network/Peer.cpp:57-119 | Every single completion keeps that invariant |
| Peers.NewConnectionIsConsistent | src/library/network/Peer.cpp:7-12 | A new connection satisfies it |
| Peers.AcceptedAwaits | src/library/network/Peer.cpp:31-37 | An accepted connection waits for a command and has sent nothing |
| Peers.FailureCloses | src/library/network/Peer.cpp:59-68 | A read or chunk that fails without being aborted closes the connection, posts the close handler once, and leaves nothing in flight |
| Peers.AbortLeaves | src/library/network/Peer.cpp:59-68 | An aborted read or chunk leaves all but the operation |
| Peers.FailedWriteIsIgnored | src/library/network/Peer.cpp:198-204 | A request or header whose write fails is taken as sent |
| Peers.BrokenRunEndsClosed | src/library/network/Peer.cpp:206-217 | Every run with such a failure ends there, closed, with the close handler posted once |
| Peers.OtherCommandCloses | src/library/network/Peer.cpp:72-88 | A waiting connection that reads any byte but D closes |
| Peers.UnknownBlockIsNotServed | src/library/network/Peer.cpp:121-156 | A request for an unknown root hash, or for a block from the end of the file on, sends nothing and is a failed lookup |
| Peers.RequestLayout | src/library/network/Peer.cpp:178-187 | A request is D, the root hash and the block number in network order |
| Peers.ChunksAreSent | src/library/network/Peer.cpp:206-238 | As writes complete every chunk goes out once and the connection waits for a command again |
| Peers.RequestIsServed | src/library/network/Peer.cpp:57-170 | A waiting connection that reads a request sends the block's header and data, nothing else, and waits for the next command |
| Peers.FragmentsAreFed | src/library/network/Peer.cpp:99-119 | A downloading connection hands the fragments to its Block one by one and waits for a command after the last |
| Peers.Peer.AsyncReadBytes | src/library/network/Peer.cpp:39-55 | Starts one read, of any size for zero and else of exactly the bytes asked for, at most a buffer |
| Peers.Peer.Close | src/library/network/Peer.cpp:21-29 | Closes and posts the close handler, once |
| Peers.Peer.Start | src/library/network/Peer.cpp:31-37 | An accepted connection waits for one command byte |
| Peers.Peer.RequestBlock | src/library/network/Peer.cpp:172-196 | Sends command, root hash and block number and is downloading |
| Peers.Peer.OnDownloadRead | src/library/network/Peer.cpp:107-119 | Passes the bytes to the Block and starts the read it asks for, or waits for a command |
| Peers.Peer.UploadBlock | src/library/network/Peer.cpp:121-170 | Sends the header of a known block and starts the chain of chunks; anything else is a failed lookup |
| Peers.Peer.ReadCompleted | src/library/network/Peer.cpp:57-105 | Reacts to a read by state: command, arguments, data, or nothing |
| Peers.Peer.WriteCompleted | src/library/network/Peer.cpp:206-238 | Sends the next chunk, or waits for a command |
| Peers.Peer.Complete | src/library/network/Peer.cpp:57-68 | The completion handler of any operation performs React, whose failures Peers.FailureCloses and the rows after it pin down, and keeps the invariant |
| Transfers.UploadArrives | src/library/network/Peer.cpp:121-170 | A block uploaded from a complete file reaches a new Block, in any fragments, as exactly the hash and list that checkBlock accepts |
| Transfers.RequestIsAnswered | src/library/network/Peer.cpp:172-196 | The bytes one connection sends as its request make the other send exactly that block's upload |
| Transfers.BlockIsFetched | src/library/network/Peer.cpp:172-204 | A new connection that asks for a block and is sent its upload ends waiting for a command with the block's own hash and list |
| Transfers.ExchangeFetches | src/library/network/Peer.cpp:57-238 | Request, upload and reception of one block over two connections: both wait for a command again, and the receiver holds exactly the block's own hash and list |
| Transfers.SharedFileArrives | src/library/network/Peer.cpp:57-238 | Blocks fetched over connections from a complete peer, in any fragments, and passed to checkBlock, in any order and among calls without a collision, give the peer's whole tree |
| Elections.GatewayElection.constructor | src/library/network/GatewayElection.cpp:8-13 | No election is in progress |
| Elections.GatewayElection.Begin | src/library/network/GatewayElection.cpp:29-103 | Performs Started, whose effects Rounds.OneEvent states: a running wait is cancelled, a new one armed, and the drawn id is multicast and listed |
| Elections.GatewayElection.GatewayTimeout | src/library/network/GatewayElection.cpp:20-27 | A lost gateway starts an election and announces it, unless one is in progress |
| Elections.GatewayElection.RegisterCandidate | src/library/network/GatewayElection.cpp:45-59 | New ids enter the ordered table during an election; a known id from another host restarts it; duplicates and late packets change nothing |
| Elections.GatewayElection.TimeOut | src/library/network/GatewayElection.cpp:61-95 | The loops name the candidate at the elected place, and whether it is this node; an aborted wait only clears the flag |
| Elections.InsertMeaning | src/library/network/GatewayElection.cpp:48-50 | Inserting a new id keeps the table ordered and adds that candidate only |
| Elections.WinnerPlace | src/library/network/GatewayElection.cpp:72-84 | The place is below the number of candidates, and differs from the sum of the ids modulo that number by the wrapped-off multiples of 2^32 |
| Elections.RuleKeptIffDividing | network/multicast_protocol:38-42 | For n candidates the code elects the documented place whatever their ids iff n divides 2^32 |
| Elections.DocumentedPlace | network/multicast_protocol:38-42 | The documented place whenever every id is at most 2^32 - n |
| Elections.WrapChangesWinner | network/multicast_protocol:38-42 | Three ids for which the code names another place than the documentation |
| Elections.RestartKeepsCandidatesIff | src/library/network/GatewayElection.cpp:29-70 | Handling a cancelled wait's completion right after a start costs the node the candidates that follow iff its timer was armed or an earlier completion is outstanding, unless they would not have changed its table |
| Elections.RestartElectsItself | src/library/network/GatewayElection.cpp:29-70 | If an election is restarted while its timer runs and the cancelled wait's completion is handled before the next packet, the node elects itself whatever is sent afterwards |
| Rounds.OneEvent | src/library/network/GatewayElection.cpp:20-103 | What each event does: a start multicasts and lists the id it draws, cancels a running wait and arms one; a completion ends the election; each cancelled wait is completed once |
| Rounds.AppliedOneMore | src/library/network/GatewayElection.cpp:97-102 | Over any history exactly the starts multicast a candidate, each the id it drew |
| Rounds.OpenRoundIsConsistent | src/library/network/GatewayElection.cpp:97-102 | While a round is open the id last multicast is the node's own and the one under which it lists itself |
| Rounds.RoundIsOpen | src/library/network/GatewayElection.cpp:20-59 | From a start until the first completion after it, the table is exactly the node itself and the candidates it was sent since |
| Rounds.TableWhenFiring | src/library/network/GatewayElection.cpp:20-95 | Through any history, when its timer fires the table is exactly the node itself and the candidates received after its last start and before the first completion handled after that |
| Rounds.RoundDecides | src/library/network/GatewayElection.cpp:61-95 | The round adds one decision, the choice from that table, and nothing but a new start changes it |
| Rounds.IdleUntilStart | src/library/network/GatewayElection.cpp:45-47 | A node that has not started ignores every event |
| Rounds.ShutAtOnceElectsItself | src/library/network/GatewayElection.cpp:29-70 | Any round whose first completion is handled before anything is received elects the node itself |
| Agreement.AllAgree | src/library/network/GatewayElection.cpp:20-105 | Through any starts, restarts and collisions: if each node's last round counts the current candidates of all others and no stale ones, with distinct ids, all nodes end naming one winner, it alone is told so, all others get its address |
| Agreement.NodeNamesWinner | src/library/network/GatewayElection.cpp:61-95 | A node whose last round hears all others ends it naming the winner determined by the ids alone |
| Agreement.CountedAreSent | src/library/network/GatewayElection.cpp:45-103 | What a node that hears all counts of another is exactly the last candidate that one multicast |
| Agreement.WinnerFollowsDocumentedRule | network/multicast_protocol:38-42 | The agreed winner is the candidate at place (sum of the ids) mod n of the ids in order, when every id is at most 2^32 - n or n divides 2^32 |
| Agreement.DocumentedWinnerIffDividing | network/multicast_protocol:38-42 | An election of n nodes names the documented winner whatever their ids iff n divides 2^32 |
| Frames.Send | src/library/network/MulticastNetwork.cpp:81-115 | The packet filled in place is sender, size, command and arguments |
| Frames.OnRead | src/library/network/MulticastNetwork.cpp:117-165 | The same message, or the same drop, as Parse |
| Frames.FrameRoundTrip | src/library/network/MulticastNetwork.cpp:81-165 | A known command arrives whole, with its sender or else the packet's own address, iff it has at most 250 argument bytes |
| Frames.ParsedIsFrame | src/library/network/MulticastNetwork.cpp:128-162 | Every packet that is dispatched with a sender is the frame of its message |
| Frames.FrameLayout | src/library/network/MulticastNetwork.cpp:88-105 | A packet is the sender in network order, the body size, the command and the arguments |
| Frames.UnknownIsDropped | src/library/network/MulticastNetwork.cpp:151-156 | A command number from 11 on never arrives |
| Gateways.MulticastGateway.constructor | src/library/network/MulticastGateway.cpp:8-41 | Not the gateway, no gateway known, no callback, and the first ping counted as missed |
| Gateways.MulticastGateway.OnTimeout | src/library/network/MulticastGateway.cpp:49-52 | A callback for a lost gateway is set |
| Gateways.MulticastGateway.Update | src/library/network/MulticastGateway.cpp:54-73 | A node that becomes the gateway announces itself once to every subnet's broadcast address, in order, and keeps its table |
| Gateways.MulticastGateway.PingTimer | src/library/network/MulticastGateway.cpp:75-96 | A gateway pings; any other node counts, and calls back from the third missed ping on if a callback is set; the wait is armed again; a failed wait does nothing |
| Gateways.MulticastGateway.OnGateway | src/library/network/MulticastGateway.cpp:118-121 | A ping resets the count |
| Gateways.MulticastGateway.OnRemoteGateway | src/library/network/MulticastGateway.cpp:123-137 | A gateway learns the sender for the one subnet that hosts it, and nothing otherwise |
| Gateways.SubnetsDisjoint | src/library/network/MulticastGateway.cpp:13-29 | No address is a host of two of the subnets |
| Gateways.SubnetOfHost | src/library/network/MulticastGateway.cpp:129-136 | The first subnet found for a host is the one that hosts it |
| Gateways.SubnetRanges | src/library/network/MulticastGateway.cpp:13-29 | The hosts of the five subnets, as addresses |
| Gateways.BroadcastIsLast | src/library/network/MulticastGateway.cpp:25-28 | The five broadcast addresses, each right after its subnet's last host |
| Gateways.ForwardableCommands | src/library/network/MulticastGateway.cpp:31-35 | Exactly Hello, Message, SearchBlock and SearchFileName are forwarded, by number |
| Gateways.MulticastGateway.Forward | src/library/network/MulticastGateway.cpp:139-164 | A gateway wraps a forwardable command once for every known gateway, in subnet order, with the original sender |
| Gateways.MulticastGateway.OnForward | src/library/network/MulticastGateway.cpp:98-116 | A gateway multicasts an unwrapped forwardable command once and has it dispatched locally; otherwise neither |
| Gateways.ForwardStops | src/library/network/MulticastGateway.cpp:98-147 | A Forward is never forwarded again, wrapped or unwrapped |
| Gateways.RelayedIffShort | src/library/network/MulticastGateway.cpp:139-164 | forward with its size in a signed char sends exactly what it should iff there are at most 127 argument bytes, and else fails in the allocation or the copy |
| Handlers.MulticastHandler.AnswerSearch | src/library/network/MulticastHandler.cpp:160-188 | The asker is sent one reply, the printed matches that fit |
| Handlers.MulticastHandler.CallHandler | src/library/network/MulticastHandler.cpp:113-188 | The handler called is recorded, a search is answered, and a candidate, an election, a ping and an announcement change the election, the counter and the table as those objects do |
| Handlers.MulticastHandler.HandleForward | src/library/network/MulticastHandler.cpp:127-131 | What a Forward wraps is multicast, handled once and, if it is a search, answered after that; neither election nor table changes |
| Handlers.PlainIsHandledIff | src/library/network/MulticastHandler.cpp:36-77 | By number and size: exactly which commands that are no Forward reach their handlers |
| Handlers.ForwardIsHandledIff | src/library/network/MulticastHandler.cpp:44-48 | By number and size: exactly what a Forward hands on, at a gateway only |
| Handlers.ElectGatewayStarts | src/library/network/MulticastHandler.cpp:40-43 | An ElectGateway without arguments leaves the node waiting, listed under the id it drew and sent |
| Handlers.CandidateArrives | src/library/network/MulticastHandler.cpp:36-39 | A Candidate registers its sender under the id that was sent |
| Handlers.AnnouncementIsLearned | src/library/network/MulticastGateway.cpp:123-137 | A gateway enters the sender of an announcement for the one subnet that hosts it, and only then |
| Handlers.OthersLeaveElection | src/library/network/MulticastHandler.cpp:44-106 | No other command touches the election |
| Handlers.OwnPacketsAreHandled | src/library/network/MulticastGateway.cpp:64-83 | What elections and gateways put out is handled wherever it arrives |
| Handlers.RepliesMeaning | src/library/network/MulticastHandler.cpp:160-188 | A search is answered to the asker alone, as SearchFileNameReply, with the longest prefix of the matches that fits; nothing else is answered |
| Handlers.MulticastHandler.HandlePlain | src/library/network/MulticastHandler.cpp:36-110 | A plain command: the reply of its handler, then what the gateway relays |
| Handlers.MulticastHandler.Dispatch | src/library/network/MulticastHandler.cpp:24-111 | Exactly what Sent says is sent, in that order; at most one command reaches the handlers, the one that arrived or the one unwrapped; an empty Gateway resets the counter, an empty RemoteGateway is learned, and the election ends as the rows above say |
| Relay.CausedRanksLower | src/library/network/MulticastGateway.cpp:98-164 | Every packet a dispatch causes has lower rank than the one dispatched, so relaying ends |
| Relay.ReadableIffParsed | src/library/network/MulticastNetwork.cpp:117-165 | A packet in flight is dispatched, as it is, iff its frame survives its receiver |
| Relay.SenderResolves | src/library/network/MulticastNetwork.cpp:133-141 | A multicast without a sender is one of the node it comes from |
| Relay.MoveConserves | src/library/network/MulticastHandler.cpp:24-111 | A delivery conserves what has been and can still be handled, a loss only shrinks it, and both lower the cost in flight |
| Relay.RunConserves | src/library/network/MulticastHandler.cpp:24-111 | Over whole runs: nothing outside the prospect is handled and no more packets are moved than the initial cost; without losses exactly the prospect is handled, in exactly that many moves |
| Relay.OriginateProspect | src/library/network/MulticastGateway.cpp:98-164 | A multicast forwardable command can be handled once at every other node of its network and of each network whose present gateway is in the relaying gateway's table, and nowhere else, whatever else the table lists |
| Relay.MulticastFromNode | src/library/network/MulticastGateway.cpp:98-164 | The packets a command costs: one for each other node of its network, one for each entry of the relaying table, and one for each other node of the networks relayed to |
| Relay.AtMostOnce | src/library/network/MulticastHandler.cpp:44-48 | Under any deliveries and losses, with tables that may be out of date, no node handles the command twice, none handles anything else, and at most that number of packets is moved, exactly that many without losses |
| Relay.ReachesEveryoneOnce | src/library/network/MulticastHandler.cpp:108-110 | With full tables and no losses every node of the sender's network handles it once, and a node of another network does iff the sender is no gateway and the command leaves room for one byte |
| Announcements.TableHoldsLastHeard | src/library/network/MulticastGateway.cpp:64-137 | After any elections and announcements, lost or not, a table holds, for each other network, exactly the last gateway whose announcement reached its owner while that was the gateway |
| Announcements.FullTablesIff | src/library/network/MulticastGateway.cpp:64-137 | The tables are full iff the gateways of any two inhabited networks know each other |
| Announcements.EveryHistoryIsSane | src/library/network/MulticastGateway.cpp:123-137 | After any history the tables list no node of the own network and none twice, which is all that the relay theorems ask of them |
| Announcements.RelayAfterAnyHistory | src/library/network/MulticastGateway.cpp:98-164 | After any history, at-most-once delivery, who can handle a command, and the bound on its packets |
| Announcements.KnownArePresent | src/library/network/MulticastGateway.cpp:123-137 | Tables that know all present gateways list nobody else |
| Announcements.OnceIsOneWay | network/multicast_protocol:73-76 | When every network elects once, the earlier gateway of two knows the later one iff the announcement reached it, and never the reverse |
| Announcements.OneRoundIsNotEnough | network/multicast_protocol:73-76 | So after one election in each of two or more networks the tables are not full |
| Announcements.TwoRoundsAreEnough | src/library/network/MulticastGateway.cpp:64-137 | Announced twice over by the same gateways, in any orders and reaching all, all tables are full |
| SearchReplies.BuildAnswer | src/library/network/MulticastHandler.cpp:164-182 | The loop prints exactly the emitted matches, in at most BODY_MAXSIZE bytes |
| SearchReplies.EmittedIsLongestFit | src/library/network/MulticastHandler.cpp:167-182 | They are the longest prefix of the matches that fits |
| SearchReplies.ParseReply | src/library/network/MulticastHandler.cpp:77-106 | On arbitrary bytes the loop ends within bounds; its results have exactly the names of the entries, each with the size and hash of the last entry of that name |
| SearchReplies.CollectedIsResults | src/library/network/MulticastHandler.cpp:100-102 | The map filled entry by entry has exactly the names carried, each with size and hash of its last entry |
| SearchReplies.EntryLayout | src/library/network/MulticastHandler.cpp:168-174 | An entry is hash, size, name and a NUL |
| SearchReplies.ScanName | src/library/network/MulticastHandler.cpp:84-91 | Counts the bytes up to the next NUL or the end |
| SearchReplies.PrintedEntriesReadBack | src/library/network/MulticastHandler.cpp:77-187 | Parsing what was printed gives back the same entries, for NUL-free names |
| SearchReplies.ParsedEntriesPrintBack | src/library/network/MulticastHandler.cpp:82-103 | On arbitrary bytes the entries read are NUL-free and print back to the bytes they came from, and no complete entry is left |
| SearchReplies.ReplyRoundTrip | src/library/network/MulticastHandler.cpp:77-187 | Printer, frame, dispatch and parser together hand over the names of exactly the emitted matches, each with size and hash of the last match of that name, and nothing when none was emitted or the reply has 251 bytes |
| SearchReplies.LongestReplyIsLost | src/library/network/MulticastHandler.cpp:177-187 | A match whose name has 226 bytes is printed and dropped |
| HashIndex.Unserialize | src/library/filesystem/HashDatabase.cpp:101-124 | The scan returns the record that ReadRecord defines, or the failing assertion |
| HashIndex.RecordRoundTrip | src/library/filesystem/HashDatabase.cpp:78-124 | A stored record reads back whole iff its name holds no NUL |
| HashIndex.RecordReadableIff | src/library/filesystem/HashDatabase.cpp:105-114 | Data of at least 28 bytes reads as a record iff a NUL comes early enough |
| HashIndex.RecordLayout | src/library/filesystem/HashDatabase.cpp:86-96 | A record is the name, a NUL, the time lowest byte first and the file |
| HashIndex.KeyLayout | src/library/filesystem/HashDatabase.cpp:32-33 | Records are kept under 0 and the root hash, names under 1 and the name |
| HashIndex.MarkersOnly | src/library/filesystem/HashDatabase.cpp:12-17 | Opening puts the four one-byte keys and leaves every other one |
| HashIndex.HashDatabase.constructor | src/library/filesystem/HashDatabase.cpp:5-18 | Opening an index, new or stored, puts the four markers and changes nothing else |
| HashIndex.OpeningKeepsIntact | src/library/filesystem/HashDatabase.cpp:12-17 | Opening lists the names that were stored and keeps an intact index intact and a backed one backed |
| HashIndex.NewIndexIsIntact | src/library/filesystem/HashDatabase.cpp:12-17 | A new index lists no name, is intact and holds no record without its name |
| HashIndex.HashDatabase.AddFile | src/library/filesystem/HashDatabase.cpp:25-44 | Stores the record of the file's content under its root hash and the root hash under its name, and changes nothing else |
| HashIndex.HashDatabase.Find | src/library/filesystem/HashDatabase.cpp:46-58 | Follows name to root hash to record, each missing step being the failing assertion |
| HashIndex.HashDatabase.FindHash | src/library/filesystem/HashDatabase.cpp:60-69 | Reads the record under a root hash, each missing step being the failing assertion |
| HashIndex.HashDatabase.DelFile | src/library/filesystem/HashDatabase.cpp:131-141 | Removes the name and its record |
| HashIndex.HashDatabase.HasPrefix | src/library/filesystem/HashDatabase.cpp:158-167 | The character loop and the length test hold iff the path is a prefix of the name |
| HashIndex.HashDatabase.DelDirectory | src/library/filesystem/HashDatabase.cpp:143-173 | Exactly the names that start with the path and a slash are gone, the slash being added unless the path ends in one; in an intact index every other name finds the record it found before |
| HashIndex.DirectoryIsPurged | src/library/filesystem/HashDatabase.cpp:147-170 | The same of the purged index, name by name |
| HashIndex.PurgedRecords | src/library/filesystem/HashDatabase.cpp:139-170 | A root hash keeps its record iff no name in the directory has it |
| HashIndex.AddKeepsIntactIffUnshared | src/library/filesystem/HashDatabase.cpp:25-44 | Adding keeps every name resolving to its own record iff no other listed name has that root hash, and the added name resolves to the file on disk |
| HashIndex.AddedFileReadsBack | src/library/filesystem/HashDatabase.cpp:25-58 | What find returns for an added name decodes to the whole file that was hashed, complete and with its Merkle root, iff its tree holds no all-zero hash |
| HashIndex.IntactIsDistinct | src/library/filesystem/HashDatabase.cpp:46-58 | In an intact index no two names share a root hash |
| HashIndex.DeleteKeepsIntact | src/library/filesystem/HashDatabase.cpp:131-141 | Deleting a listed name keeps the index intact |
| HashIndex.PurgeKeepsIntact | src/library/filesystem/HashDatabase.cpp:143-173 | Purging names removes exactly them, and every other name resolves to the record it had |
| HashIndex.RunKeepsIntact | src/library/filesystem/HashDatabase.cpp:25-173 | Any run of addFile, delFile and delDirectory that shares no root hash keeps the index intact |
| HashIndex.AddKeepsBackedIffSameRoot | src/library/filesystem/HashDatabase.cpp:25-44 | Adding keeps every record reached from the name it carries iff that name was not listed with another root hash |
| HashIndex.DeleteKeepsBacked | src/library/filesystem/HashDatabase.cpp:131-141 | Deleting a listed name keeps every record reached from its name |
| HashIndex.PurgeKeepsBacked | src/library/filesystem/HashDatabase.cpp:143-173 | So does deleting a directory |
| HashIndex.RunKeepsBothWays | src/library/filesystem/HashDatabase.cpp:25-173 | Any run that shares no root hash and adds no changed file again keeps names and records resolving to each other |
| HashIndex.ChangedFileLeavesRecord | src/library/filesystem/HashDatabase.cpp:25-141 | A file added, changed, added again and deleted: its old record is still found under the old root hash |
| HashIndex.TwinIsLost | src/library/filesystem/HashDatabase.cpp:131-141 | Two names with one content, one deleted: the other is still listed but not found |
| Sharing.AddedIsOffered | src/library/filesystem/HashDatabase.cpp:25-69 | A file just added is listed and its record is found under its root hash |
| Sharing.ServedContent | src/library/network/Peer.cpp:125-152 | What is served for a root hash is the content of the file offered under it, and nothing when there is no record or no file |
| Sharing.RunKeepsOffer | src/library/filesystem/HashDatabase.cpp:25-173 | It stays so through any run that spares its name and shares no root hash |
| Sharing.StoredListIsOwn | src/library/network/Peer.cpp:125-145 | The hash list from the record read back is that of the file's content, when the record reads back whole |
| Sharing.IndexedFileArrives | src/library/network/Peer.cpp:121-238 | A file added to the index, spared since and unchanged on disk arrives whole at whoever asks for all blocks of its root hash, in any fragments and order and among calls without a collision |

## Left out

Stated weaker, or under a condition:

- Files.File.CheckBlock: models the evident intent, not the written list length and orphan handling, which AsWritten has; a null hash among its arguments (undefined in the source) is not an input.
- Files.File.FoldUp: skips the orphan levels that the written fold hashes; AsWritten has that fold.
- Files.File.WriteSiblings: skips the orphan levels on which the source writes past the end.
- Files.File.constructor: the number of blocks is the exact ceiling, where the source divides by a float.
- Files.File.SetHash: a null hash as argument is not modelled, and a block index out of range is excluded, as the source indexes unchecked.
- Files.File.SerializedSize: exact, where the source sums in 32 bits; Files.File.Serialize wants a size below 2^64, which is the source's type.
- FileFormat.BlockCount: exact ceiling, where the source divides by a float.
- FileFormat.ThrowsIffTooShort: sizes and indexes are unbounded integers, and a header cut short, which the source reads past, is excluded.
- CompleteFiles.Open: the file is readable and keeps its content while it is hashed; its size is that of the content.
- Blocks.TransferRoundTrip: non-empty data only, as an empty block never finishes (Blocks.EmptyBlockWaits); a hasher used after its digest was taken stands for one that keeps what it was fed.
- Peers.RunsAreConsistent: assertions about the database and the block index are a separate fault, Lookup, which ends the run; a stored size equals the size of the content on disk; a short read never delivers zero bytes.
- Sharing.IndexedFileArrives: the sender's hash list is that of the content; a known all-zero hash, which reads back as null and which the source would follow, is set apart in Sharing.StoredListIsOwn.
- Transfers.SharedFileArrives: at most 269 blocks, since later ones are not sent as asked for (Sending.SendsItsBlockIffStartFits); the call of checkBlock is commented out in the source (src/library/network/Block.cpp:92-93) and is made by the model.
- Elections.DocumentedPlace: a sufficient condition on the ids; Elections.RuleKeptIffDividing has the exact one on their number.
- Elections.GatewayElection.TimeOut: a wait that has run out but whose completion is still queued when it is cancelled, and so is not aborted, is not modelled.
- Agreement.AllAgree: asks that the last rounds drew distinct ids and count every current candidate and no stale one; Rounds.TableWhenFiring says what is counted otherwise. Packets may also arrive that nobody sent.
- Gateways.MulticastGateway.Forward: sizes are 0 to 255, where the source passes them as signed characters; Gateways.RelayedIffShort has the written form and its exact limit. Relay and Announcements are about the sizes 0 to 255.
- Gateways.MulticastGateway.constructor: what the uninitialised counter held is a parameter.
- Handlers.MulticastHandler.Dispatch: the matches of a search are a parameter and log lines are not modelled; the dangling sender address after a local dispatch plays no part, since a Forward is not forwarded.
- Relay.AtMostOnce: gateways and tables do not change during a run, a network has at most one gateway, and the network loses and reorders packets but does not duplicate them; it follows one command, not the replies its handlers send.
- Announcements.TableHoldsLastHeard: an announcement is lost or delivered at once, and not to its sender.
- SearchReplies.ReplyRoundTrip: NUL-free names; the size is the four bytes of the float, copied as they are.
- HashIndex.RunKeepsIntact: LevelDB is a map and its writes succeed; the order of iteration plays no part.
- HashIndex.Unserialize: data of less than 28 bytes, which no record has, counts as a failing assertion; in the source the unsigned limit wraps, the assertion passes, and it reads past the data.
- HashIndex.OpeningKeepsIntact: asks that the bare hash marker holds no record, as after any earlier opening.
- HashIndex.HashDatabase.DelFile: of a listed name, as the source asserts.

Not modelled:

- SHA-1, the `Hash` class and its printing: a digest is any function to twenty bytes.
- Sockets, timers, threads and random numbers: completions, firing timers and random ids are inputs.
- How long timers take, and the random wait before an ElectGateway that the protocol text asks for and the code does not have.
- `rehash`, `list`, `search` and its case folding, and partial files in the index.
- `UnicastHandler` beyond using each connection once, `DirectoryExplorer`, `Config`, `TransfersManager`, logging and `File::print`: only easy properties.
- Byte order: memory copies are little-endian and sizes and times have 64 bits.
