# A verified model of a small distributed file system

The system stores files as chunks. A master keeps, in one LevelDB map from strings to strings, how many chunks each file
has, which chunk server holds which chunk, the list of file URLs and the users; the chunk servers keep chunk data in maps
of the same form. This project models the code that works on those maps and proves what it keeps and where it falls
short, for all inputs, all runs and all answers of the other side.

Run `dafny verify dfyconfig.toml` to check it.

## How it is built

- `Text`, `Keys`: decimal numbers, separated text, and the key schema that users, counts, chunk data, chunk metadata and
  lists share.
- `Database`: the map as a class, and the persistent list with its shifting removals.
- `MetaData`, `FileStore`, `Files`: chunk and file objects. Each method is proved against a function on maps; what moving,
  renaming, appending and deleting mean is proved about those functions.
- `ChunkServer`, `Segments`, `Placement`, `Replication`: packages stored, joined, split and served again; how an upload is
  cut and spread over servers; how the master copies a chunk from one server to another.
- `Servers`, `MasterStore`, `Namespace`, `Uploads`, `Copies`, `Requests`, `Index`, `Accounts`, `Master`: the master's
  invariant, and its handlers for uploads and copies (104), moves (117), deletion (135), file lookup (101), the index
  built at start-up, registration and login.
- `Base64`, `IPv6`, `Clock`, `JsonSerial`, `Scheduling`: the password encoder, the address printer, the decimal clock with
  the timer, the message serialiser, and the thread pool.

The master's invariant (`Master.MasterServer.Valid`) is kept by every handler however it ends: the list is duplicate-free
and holds file URLs, each stored count is a number, the metadata of a chunk is all present or all absent, and the stored
index of a chunk is the index in its key, on which moving relies (`MasterStore.FilesOk`). A store is in order
(`MasterStore.InOrder`) if besides every counted chunk has metadata. The empty store is (`MasterStore.EmptyInOrder`), and
every handler keeps a store in order, a deletion that stops half way apart. Random choices, lost replies, answers of chunk
servers, clock readings and the steps of threads are parameters, so that every result holds for all of them. Names, paths
and users are `|`-free strings (`Keys.Name`), but for the results that say what separators in them do. Packages are
arbitrary strings; where a result is about packages that are not empty, it says so.

## What does not hold, and exactly when it does

- A chunk server appends a package for a chunk it has no text of at its own count, not at the index the package names
  (`ChunkServer.RunLands`), and splits chunks at separators inside packages too (`ChunkServer.LinesOfJoinedIff`). An
  uploaded file each package of which was stored once therefore reads back if and only if all its chunks with packages are
  on one server, whose port fits the 16 bits recorded of it, no package holds a separator, exceeds the package size or
  reads as the end mark, and no chunk begins or ends with an empty package (`Placement.StoredReadBackIff`,
  `Uploads.UploadReadBackIff`), although the master chooses a new server for every chunk.
- A package whose reply is lost is stored again. If no package is empty, a file on one such server reads back if and only
  if its packages are as above and none was stored again; a file on any servers, if and only if its packages are as above
  and what lands as each chunk, by the numbers of packages stored, is that chunk (`Uploads.UploadReadBackIff`). A package
  stored twice can bring that about for a file that is spread (`Placement.RepeatedHelps`).
- A file uploaded again while the master still counts chunks of it does not read back, if no server has more chunks of it
  than the master counts: the packages join old chunks (`Uploads.UploadAgainLost`).
- A failed copy is retried from its first package, and what went through before is then stored again. The chunk is right
  if and only if the failed attempts had stored just as many packages as the receiving server was short of chunks, which is
  none at its next free index; in a chunk it had before never (`Replication.RetriedEqualIff`, a chunk of one empty package
  apart).
- At the next free index of the receiving server a complete copy equals the original if and only if no package is longer
  than the package size or reads as the end mark and the text neither begins nor ends with a separator; at an index behind
  that it never does, and in a chunk that was there it does if and only if what stood there and what came make up the
  original (`Replication.ReplicaEqualIff`). A file copied at the first attempts therefore reads back if and only if its
  packages are such, all went to one server, the one recorded, and no chunk comes behind an empty one or begins or ends
  with an empty package; with retries and failed chunks, if and only if what lands as each chunk is the chunk it stands for
  (`Replication.CopyReadBackIff`).
- A chunk that could not be copied leaves no gap in the copy: later chunks take its number, so that chunk t of the copy is
  chunk t of the file if and only if no chunk was copied after one that failed (`Copies.AlignedIff`).
- A move that a chunk server refuses has already taken the copy's URL out of the list: the request can be made again if and
  only if some copy had moved and the path is the old one (`Requests.RefusedListedIff`, `Master.MasterServer.MovePath`).
- A deletion that stops after some chunk of a copy leaves a count that covers chunks without metadata
  (`Requests.StoppedInOrderIff`); the next deletion then reads fields that are not there.
- A client that asks for the metadata of k chunks gets 3k(k+1)/2 strings, of which only the last 3k are meant
  (`Index.GrowingMetasShape`); each is sent once if and only if no chunk before the last has metadata
  (`Index.SentOnceIff`).
- The timer fires early if and only if its time runs into the next minute (`Clock.ExpiredEarlyIff`), because the
  difference of two decimal clock values grows by 41 or more at the end of a minute.
- A user who registers with the empty password stays unregistered, and an unregistered user logs in with the empty
  password (`Accounts.LoginAfterRegister`, `Accounts.UnregisteredLogin`).
- A file's URL and a chunk's key are its own if and only if name and path hold no separator (`Keys.UrlUniqueIff`,
  `Keys.DataKeyUniqueIff`), a user's key is no file's if and only if the user's name holds none (`Keys.UserKeyUniqueIff`),
  and a count key is the data key of a chunk if and only if it has three or more parts and ends in a number
  (`Keys.CountIsDataKeyIff`, with `Keys.SeparatorInNameCollides` for an instance).
- A recorded place names its server if and only if the port fits 16 bits (`Servers.PlaceNamesServerIff`), and a path is cut
  out of a URL rightly if and only if it has no separator or is no longer than the misplaced cut (`MetaData.ParseUrl`).

## Model

| member | source | states |
|---|---|---|
| Keys.JoinKeyLoop | src/modules/db/database.h:177-185 | the loop of `joinkey` yields every part followed by a separator |
| Keys.EncodeInjective | src/modules/meta_data/file.cc:29-37 | the key schema is free of collisions: two keys of any kinds (user, count, data, metadata, list length, list slot) that share a string are the same key, whatever separator-free names they hold |
| Keys.BuiltKeys | src/modules/meta_data/chunk.cc:23-43 | the strings joined by both chunk constructors, by the file constructors and by the metadata operations are exactly the schema's keys, and the two chunk constructors agree |
| Keys.BuiltListKeys | src/modules/db/database.cc:250-265 | the strings joined by the list operations are the schema's list keys |
| Keys.SchemaKeys | src/modules/meta_data/chunk.cc:101-128 | how each kind of key reads: name and path, then the number, then the field name or the word length, separated by bars |
| Keys.SeparatorInNameCollides | src/modules/meta_data/chunk.cc:35-43 | a concrete collision: a file named with a separator has the count key of another file's chunk data |
| Keys.UrlUniqueIff | src/modules/meta_data/file.cc:29-37 | over arbitrary strings a file URL belongs to one name and path if and only if neither holds a separator |
| Keys.DataKeyUniqueIff | src/modules/meta_data/chunk.cc:23-43 | a chunk's data key belongs to one name, path and index if and only if neither name nor path holds a separator |
| Keys.UserKeyUniqueIff | src/core/master_server/master_server.cc:471-518 | no file of any name and path has the key of a user if and only if the user's name holds no separator |
| Keys.CountIsDataKeyIff | src/modules/meta_data/chunk.cc:35-43 | a file's count key is some chunk's data key if and only if it falls into three or more parts at its separators, the last a printed number |
| Text.StoiToString | src/modules/meta_data/file.cc:289-302 | reading back a printed number, as counts, ports, indices and lengths are, returns it |
| Text.StoiReads | src/core/chunk_server/chunk_server.cc:235-236 | `std::stoi` skips white space, takes one sign and ignores what stands behind the digits; a text that begins otherwise has no number |
| MetaData.ParseUrl | src/modules/meta_data/file.cc:17-27 | a joined URL parses to its name always and to its path if and only if the path has no separator or is no longer than the misplaced cut; for separator-free paths that is always |
| Database.LevelDBList.constructor | src/modules/db/database.cc:233-248 | opening finds the list that was stored, or an empty one |
| Database.LevelDBList.PushBack | src/modules/db/database.cc:250-265 | appends a new value, refuses one that is in the list, keeps the list duplicate-free and touches no other key |
| Database.LevelDBList.ShiftFrom | src/modules/db/database.cc:316-333 | the shared loop of the removals moves every later item down by one slot; on an empty list, from any start, its wrapped bound ends at the first missing slot unless the store holds nearly 2^64 entries |
| Database.LevelDBList.PopFront | src/modules/db/database.cc:314-337 | removes the first item and keeps the order of the others; fails and changes no item on an empty list |
| Database.LevelDBList.RemoveAt | src/modules/db/database.cc:376-406 | removes the item at the index, or the last one if the index is past the end; fails and changes no item on an empty list |
| Database.LevelDBList.RemoveValue | src/modules/db/database.cc:408-416 | removes the value if it is there, says whether it was, and keeps the order of the others |
| Database.LevelDBList.Find | src/modules/db/database.cc:418-438 | the first position of a value, or -1 if and only if it is not in the list |
| Database.LevelDBList.IsSame | src/modules/db/database.cc:440-451 | whether the value is in the list |
| Database.LevelDBList.At | src/modules/db/database.h:264-270 | the item at an index of the list |
| Database.LevelDBList.Size | src/modules/db/database.h:256 | the number of items |
| Database.RunList | src/modules/db/database.cc:233-451 | over every run of appends, removals, from empty lists too, and reopenings the stored list refines a duplicate-free sequence, and only the list's own keys change |
| Database.WithoutSet | src/modules/db/database.cc:408-416 | removal by value is set difference and keeps a list duplicate-free |
| MetaData.Chunk.RecordMetaData | src/modules/meta_data/chunk.cc:101-128 | stores address, port and index under the chunk's three metadata keys, or changes nothing if it is not open |
| MetaData.Chunk.ReadMetaData | src/modules/meta_data/chunk.cc:130-172 | appends the stored fields up to the first missing one and takes over their values, the port cut to 16 bits |
| MetaData.Chunk.DelMetaData | src/modules/meta_data/chunk.cc:185-217 | deletes exactly the three metadata keys, or changes nothing if it is not open |
| MetaData.Chunk.Write | src/modules/meta_data/chunk.cc:62-77 | stores the data under the chunk's key, or changes nothing if it is not open |
| MetaData.Chunk.Read | src/modules/meta_data/chunk.cc:79-93 | reads it, leaving the caller's string as it was when there is none |
| MetaData.Chunk.Del | src/modules/meta_data/chunk.cc:219-230 | deletes it, or changes nothing if it is not open |
| MetaData.Chunk.Rename | src/modules/meta_data/chunk.cc:232-257 | the whole new store and object: data and metadata taken out and stored again under the new name at the index that the metadata holds, or at the object's if it holds none; a chunk that is not open changes its name only, and the store not at all |
| MetaData.Chunk.Move | src/modules/meta_data/chunk.cc:259-284 | the same for a new path |
| FileStore.ChunkOkMovable | src/modules/meta_data/chunk.cc:259-284 | the invariant that the stored index is the index of the key makes a move keep the index |
| FileStore.RelocatedChunk | src/modules/meta_data/chunk.cc:232-284 | a relocated chunk has its data (a missing one as empty) and fields at the new name, nothing at the old one, and no other key changes |
| FileStore.RelocatedReads | src/modules/meta_data/chunk.cc:232-284 | the same for a chunk whose metadata holds any other index: data and fields, the port cut to 16 bits, are read at that index |
| Files.File.Open | src/modules/meta_data/file.cc:39-55 | opening reads the stored count, 0 if there is none |
| Files.File.Write | src/modules/meta_data/file.cc:57-76 | writes the data of any chunk up to the count and refuses an index behind it |
| Files.File.Read | src/modules/meta_data/file.cc:78-97 | reads it under the same bound |
| Files.File.Append | src/modules/meta_data/file.cc:105-130 | stores data at the count and counts one more chunk |
| Files.File.AppendMetaData | src/modules/meta_data/file.cc:269-287 | the same for metadata |
| Files.File.ReadChunkMetaData | src/modules/meta_data/file.cc:239-252 | appends the chunk's stored fields within the bound |
| Files.File.DelChunkMetaData | src/modules/meta_data/file.cc:254-267 | deletes them within the bound |
| Files.File.Rename | src/modules/meta_data/file.cc:156-182 | relocates every chunk, sets the old count to 0 and the new one to the number of chunks; the same name changes nothing |
| Files.File.Move | src/modules/meta_data/file.cc:184-209 | the same for a new path |
| FileStore.MoveFile | src/modules/meta_data/file.cc:156-209 | a move or rename of any number of chunks relocates all of them, leaves no key of them behind, writes both counts, and touches no unrelated key |
| FileStore.MovedChunkReads | src/modules/meta_data/file.cc:184-209 | each moved chunk reads back its data, address, port and index unchanged |
| FileStore.MoveKeepsOrder | src/modules/meta_data/file.cc:184-209 | every file of the store keeps its invariant under a move, whatever stood at the target |
| FileStore.MoveBack | src/modules/meta_data/file.cc:156-209 | moving to an unoccupied place and back restores what every key reads, a count of 0 at the place apart |
| FileStore.AppendMeta | src/modules/meta_data/file.cc:269-287 | appended metadata reads back as the place given, the count grows by one, and nothing else changes |
| FileStore.DeleteMeta | src/modules/meta_data/file.cc:254-267 | no field of the chunk is left, and nothing else changes |
| ChunkServer.LinesOfJoinedIff | src/core/chunk_server/chunk_server.cc:252-255 | splitting gives back the packages that were joined if and only if none holds a separator and the last is not empty |
| ChunkServer.ChunkServer.StorePackage | src/core/chunk_server/chunk_server.cc:95-139 | a package joins the chunk it names if that has data, and otherwise becomes a new last chunk at the count, not at the index it names; no key but those of that data and the count is written |
| ChunkServer.ChunkServer.SkipLines | src/core/chunk_server/chunk_server.cc:244-251 | the skipping loop leaves the packages from the start index on |
| ChunkServer.ChunkServer.ServeChunk | src/core/chunk_server/chunk_server.cc:206-301 | sends the chunk's packages from the start index on, each cut at its end to the package size, up to the first that is not acknowledged, then the end mark; a short request is answered with an error, an index field without a number makes `std::stoi` throw, and a negative one wraps to `size_t` |
| ChunkServer.StoreRefines | src/core/chunk_server/chunk_server.cc:95-139 | stored files refine sequences of chunks of packages under every package stored, whatever it holds |
| ChunkServer.HeldChunkReads | src/core/chunk_server/chunk_server.cc:206-301 | the text read of a chunk is its packages joined, and splits into them if and only if none holds a separator and the last is not empty |
| ChunkServer.RunLands | src/core/chunk_server/chunk_server.cc:95-139 | where any run of packages for one chunk lands: in it if it has text; if it is further on, the first packages become chunks of their own until there is that chunk; and nothing joins a chunk without text |
| ChunkServer.ResumedRead | src/core/chunk_server/chunk_server.cc:235-301 | an interrupted read resumed behind the acknowledged packages completes the same sequence, without gap or repetition |
| ChunkServer.ReadInRounds | src/core/chunk_server/chunk_server.cc:235-301 | the same over any number of rounds of the handler, each asking from the first package not acknowledged before: what was acknowledged in all rounds is the sequence as far as they have come, and all of it once a round is acknowledged to its end |
| Placement.StoreAfterHolds | src/core/chunk_server/chunk_server.cc:95-139 | any run of stored packages, in any order, keeps a server's store a sequence of chunks of packages |
| Placement.OtherFileAfter | src/core/chunk_server/chunk_server.cc:95-139 | a server that holds another file holds it still after any run of packages |
| Placement.Conservation | src/core/master_server/master_server.cc:718-768 | a server holds as many packages as it was sent, wherever they landed |
| Placement.SpreadLoses | src/core/master_server/master_server.cc:695-699 | if a chunk with packages is not on the server named for it, or not on the one named for chunk 0, the server named for some chunk holds fewer packages than that chunk has |
| Placement.ReadBackIff | src/core/master_server/master_server.cc:669-793 | for packages of any content: the servers named return every chunk if and only if all chunks with packages were sent to the server named for them and that is one and the same, none comes behind a chunk without, no package holds a separator and no chunk begins or ends with an empty one |
| Placement.OnePlaceIff | src/core/master_server/master_server.cc:721-768 | on one server, a file some packages of which were stored again, none of them empty, is returned if and only if none was stored again and none holds a separator |
| Placement.LandsIff | src/core/chunk_server/chunk_server.cc:95-139 | which packages a server holds as its chunk t is told by the numbers of packages each chunk sent to it had |
| Placement.RepeatedReadBackIff | src/core/master_server/master_server.cc:721-768 | on any servers, such a file is returned if and only if no package holds a separator and what lands as each chunk on the server named for it is that chunk |
| Placement.RepeatedHelps | src/core/master_server/master_server.cc:721-768 | an instance: a package stored twice makes a file that is spread over two servers come back |
| Placement.ServedIff | src/core/chunk_server/chunk_server.cc:256-296 | one who asks for the chunks receives them if and only if the servers return them and every package fits the package size and does not read as the end mark |
| Placement.StoredReadBackIff | src/core/master_server/master_server.cc:669-793 | the same as `ReadBackIff` for the servers' stores and one who asks for the chunks, through storing, joining, reading, splitting and cutting to the package size |
| Segments.GreedyUnique | src/core/master_server/master_server.cc:673-702 | a stream of packages has one greedy segmentation |
| Segments.SizeOfJoined | src/core/master_server/master_server.cc:713 | the size of a chunk is the number of bytes of its packages |
| Replication.SyncChunk | src/core/master_server/master_server.cc:194-288 | the packages served for one chunk are stored one by one at the other server, up to the first that is not delivered, that one included if only its reply was lost; it succeeds if and only if all went well up to the end mark; nothing but that file's data and count changes there |
| Replication.AskChunk | src/core/master_server/master_server.cc:198-212 | a fully acknowledged request for a whole chunk yields all its packages and the end mark |
| Replication.ReplicaEqualIff | src/core/master_server/master_server.cc:215-288 | a copy that reached the end equals the original string if and only if it was made at the next free index, the string neither begins nor ends with a separator, and every package fits the package size and none reads as the end mark; or at an index the server had, and what stood there and what came make up the original; behind the next free index it never does |
| Replication.RetriedEqualIff | src/core/master_server/master_server.cc:828-855 | at every index, after any number of failed attempts: the chunk is right if and only if these had stored just as many packages as the receiving server was short of chunks, and in a chunk it had never; a chunk of one empty package apart |
| Replication.CopyReadBackIff | src/core/master_server/master_server.cc:806-857 | a new copy made at the first attempts reads back from the servers its metadata names if and only if every package can be forwarded whole, all went to one server, the one named, no chunk comes behind an empty one, and none begins or ends with an empty package; with failed attempts, failed chunks and the gaps they leave, for packages that are not empty, if and only if what lands as each chunk on the server named for it is the chunk it stands for |
| Servers.JoinServerInjective | src/core/master_server/master_server.h:52-55 | the joined address names one server, colons in the address included |
| Servers.JoinServerReads | src/core/master_server/master_server.h:52-55 | before its last colon stands the address, behind it the port |
| Servers.PlaceNamesServerIff | src/modules/meta_data/chunk.h:132 | recorded metadata names the server it was made from if and only if its port fits 16 bits |
| MasterStore.AppendInOrder | src/modules/meta_data/file.cc:269-287 | recording a chunk keeps what is stored of files well formed, and a store in order in order, and gives its file one more place |
| Namespace.CopyNameInjective | src/modules/meta_data/file.h:138-141 | the name of a copy tells the file and the number of the copy |
| Namespace.CopyOfReads | src/modules/meta_data/file.h:138-141 | copy 0 has the file's name, copy i the word copy, the number i and the file's name, with hyphens between them |
| Namespace.CopiesDiffer | src/modules/meta_data/file.h:138-141 | a file and its copies all have different names |
| Master.MasterServer.Upload | src/core/master_server/master_server.cc:669-793 | all packages before the end mark are sent on in order, each as often as its reply was lost and once more; every segment but the last reaches the limit and would not without its last package; the first segment is sent to and recorded on the given server, and every later one on the server chosen after the one before; every other way the loop ends has its cause |
| Master.MasterServer.CloseChunk | src/core/master_server/master_server.cc:675-693 | one more place behind those the file had, and its URL in the list |
| Uploads.UploadFinishes | src/core/master_server/master_server.cc:669-793 | a stream of upload messages with an end mark is accepted and cut into its one greedy segmentation |
| Uploads.SentInOrder | src/core/master_server/master_server.cc:669-793 | the packages of chunk c go to the server chosen for it, and in the order received if none is stored again |
| Uploads.UploadReadBackIff | src/core/master_server/master_server.cc:669-793 | what one who asks the servers named by the metadata of a new file receives is the file: if nothing was stored twice, if and only if all chunks with packages went to one server whose port fits 16 bits, no package holds a separator, exceeds the package size or reads as the end mark, and no chunk begins or ends with an empty one; on one such server, for packages that are not empty, if and only if they are such and none was stored twice; on any servers, if and only if they are such and what lands as each chunk is that chunk |
| Uploads.UploadAgainLost | src/core/master_server/master_server.cc:669-793 | a file that had chunks before the upload is not found again: its last new chunk is not on the server its metadata names |
| Master.MasterServer.StoreFile | src/core/master_server/master_server.cc:633-866 | an upload and its copies, unless the file is under a lease, which leaves it alone: the file has a place for each segment, the given server for the first and the one chosen after the segment before for every other; behind what it had, every copy has a place for each chunk that was copied, in order, and for ports of 16 bits on another server than that chunk's; no other file is touched; the list gains the file and every copy with a recorded chunk; the invariant is kept however it ends |
| Master.MasterServer.MakeCopies | src/core/master_server/master_server.cc:806-858 | every copy is completed, no other file is touched, and exactly the copies with a recorded chunk are listed |
| Copies.ListedCopiesAre | src/core/master_server/master_server.cc:838-841 | behind the list as it was stand just the copies of which a chunk was copied, each once |
| Master.MasterServer.MakeCopy | src/core/master_server/master_server.cc:808-857 | one copy: a place for each chunk that was copied, chosen for its address differing from that of the chunk's server, and its URL in the list if there is any |
| Master.MasterServer.ChooseOther | src/core/master_server/master_server.cc:820-824 | the first random choice whose joined address differs from that of the original's server |
| Master.MasterServer.TrySync | src/core/master_server/master_server.cc:828-855 | it succeeds if and only if one of seven attempts does |
| Copies.FreshCopyComplete | src/core/master_server/master_server.cc:808-857 | a fresh copy whose chunks were all copied has as many chunks as the file, and if the ports fit 16 bits chunk t of it is on a server other than that of chunk t of the file |
| Copies.CopiesApart | src/core/master_server/master_server.cc:820-826 | whatever failed, each recorded chunk of a copy is on a server other than that of the chunk it was copied from, if the ports fit 16 bits |
| Copies.SourcesExact | src/core/master_server/master_server.cc:828-855 | a copy stands for exactly the chunks that were copied, in ascending order |
| Copies.AlignedIff | src/core/master_server/master_server.cc:808-857 | chunk t of a fresh copy stands for chunk t of the file if and only if no chunk was copied after one that failed |
| Copies.ElsewhereDiffers | src/core/master_server/master_server.cc:820-826 | a server chosen for its joined address is, if its port fits 16 bits, another recorded place than the original's |
| Master.MasterServer.MovePath | src/core/master_server/master_server.cc:869-1012 | a reply is sent if and only if there is no lease, the URL is listed, and every counted chunk of every copy has metadata and an answer that is not of bit 124 with other data than true; then every copy is at the new path, just one request has been sent to each chunk's server and no other, no other file changed, and the list holds the new URLs; otherwise the exact point where it stopped, the requests sent, the files as moved so far and the list, which has lost the URL of the copy it stopped at, and whether the file is still in it |
| Master.MasterServer.MoveCopy | src/core/master_server/master_server.cc:906-1008 | one copy of that loop, refused or moved |
| Requests.RefusedListedIff | src/core/master_server/master_server.cc:906-980 | after a refused move the file is listed under its old path, so that the request can be made again, if and only if some copy had moved and the path is the same; under the new path if and only if some copy had moved or that URL was listed before |
| Master.MasterServer.AskMoves | src/core/master_server/master_server.cc:921-980 | one request for each chunk, to the server its metadata names, up to the first without metadata or not accepted |
| Requests.MovesAskedOnce | src/core/master_server/master_server.cc:921-957 | no two of the requests of a move are the same, and there is one to each chunk of the copies, to the server its metadata names |
| Namespace.MovedUrlsSet | src/core/master_server/master_server.cc:906-1008 | as a set the list loses every old copy URL and gains every new one, and it stays duplicate-free |
| Namespace.FileMovedWhole | src/modules/meta_data/file.cc:184-209 | a file in order is wholly at the new path: count, data and places |
| Namespace.CopiesMovedNext | src/core/master_server/master_server.cc:906-1008 | moving the next copy disturbs neither the copies moved before nor any other file |
| Master.MasterServer.DeleteFile | src/core/master_server/master_server.cc:1264-1386 | a reply is sent if and only if there is no lease and the server of every counted chunk of every copy answers with bit 129 and true; then no counted metadata of any copy is left, all counts are 0, no other file changed, the list has lost the URLs and just one request has been sent to each chunk's server; otherwise the exact point where it stopped, the requests sent and the store it left |
| Master.MasterServer.DeleteCopy | src/core/master_server/master_server.cc:1285-1382 | one copy of that loop |
| Master.MasterServer.DeleteChunks | src/core/master_server/master_server.cc:1300-1355 | one request for each chunk, to the server its metadata names; the metadata goes when the server has deleted the data |
| Requests.DeletesAskedOnce | src/core/master_server/master_server.cc:1300-1335 | so it is with the requests of a deletion |
| Namespace.RemovedUrlsSet | src/core/master_server/master_server.cc:1356 | as a set the list loses exactly the copy URLs |
| Namespace.DeleteMetas | src/core/master_server/master_server.cc:1300-1355 | deleting the metadata of the first k chunks leaves no field of them and changes nothing else |
| Namespace.ClearFile | src/core/master_server/master_server.cc:1300-1357 | a deleted file counts nothing and has no metadata, every other file is as before, and all are well formed |
| Namespace.DeletedFilesOk | src/core/master_server/master_server.cc:1300-1355 | a deletion stopped after any number of chunks keeps what is stored of every file well formed |
| Requests.DeletedStartsAgain | src/modules/meta_data/file.cc:269-287 | metadata appended after a deletion is that of chunk 0 again |
| Requests.StoppedInOrderIff | src/core/master_server/master_server.cc:1300-1355 | a deletion that stops leaves the store in order if and only if it stopped at the first chunk of a copy |
| Master.MasterServer.BuildIndex | src/core/master_server/master_server.cc:80-100 | the start-up loops build the exact inverse of the stored metadata of all listed files, counted chunks without metadata passed over: a chunk is in the row of a server if and only if its metadata names that server |
| Index.ChunksOnExact | src/core/master_server/master_server.cc:86-98 | an entry is the strictly ascending list of the chunks whose metadata names the server |
| Index.ListedOnce | src/core/master_server/master_server.h:52-55 | every chunk with metadata occurs under exactly one server, that of its place |
| Index.IndexDetermined | src/core/master_server/master_server.cc:93-96 | no entry is empty, so that the index is determined by the metadata |
| Index.FileUrlsKept | src/core/master_server/master_server.cc:1356 | adding, moving and deleting keep the list a list of file URLs; the handlers' invariant holds it so |
| Master.MasterServer.FindFileMetaData | src/core/master_server/master_server.cc:114-134 | the metadata of growing prefixes of the chunks, because the accumulator is never cleared, chunks without metadata passed over |
| Master.MasterServer.SendFileMetaData | src/core/master_server/master_server.cc:594-628 | the answer holds all of that: taking it three at a time never runs past the end |
| Index.GrowingMetasShape | src/core/master_server/master_server.cc:114-134 | for k chunks 3k(k+1)/2 strings, the last 3k being the metadata of all chunks in order, and those before the answer for k - 1 chunks |
| Index.GrowingMetasInThrees | src/core/master_server/master_server.cc:611-621 | their number is a multiple of three, even if chunks are without metadata |
| Index.MetasAt | src/core/master_server/master_server.cc:122-131 | strings 3i to 3i+2 are the address, port and index of chunk i |
| Index.SentOnceIff | src/core/master_server/master_server.cc:114-134 | each chunk's metadata is sent just once if and only if no chunk before the last has any, which for a file in order means at most one chunk |
| Base64.EncryptPwd | src/core/master_server/master_server.cc:417-469 | the staged loop computes the Base64 text of section 4 of RFC 4648 for every byte string, with all table indices in range |
| Base64.Staged | src/core/master_server/master_server.cc:439-443 | the masks and shifts of the staging buffer are the 6-bit values of a 24-bit group |
| Base64.FlushTail | src/core/master_server/master_server.cc:452-466 | one or two left-over bytes are completed and padded as the standard says |
| Base64.DecodeEncode | src/core/master_server/master_server.cc:417-469 | a decoder written after the standard inverts the encoder |
| Master.MasterServer.Register | src/core/master_server/master_server.cc:497-518 | registers a user without a stored password, refuses any other and then changes nothing, and keeps files and list |
| Master.MasterServer.Login | src/core/master_server/master_server.cc:471-495 | succeeds if and only if the stored text is the encoded password, and only then changes the session |
| Accounts.LoginAfterRegister | src/core/master_server/master_server.cc:471-518 | after registration exactly the registered password logs in, and the name is taken if and only if that password is not empty |
| Accounts.PasswordKept | src/core/master_server/master_server.cc:497-518 | a user with a stored password logs in with the same passwords before and after any registration, of the same name too |
| Accounts.UnregisteredLogin | src/core/master_server/master_server.cc:471-495 | an unregistered user logs in with the empty password and no other |
| Accounts.RegisterFrame | src/core/master_server/master_server.cc:497-518 | registration touches no file, no list and no other user |
| IPv6.Insert | src/modules/socket/address.cc:438-468 | the printing loop prints the groups with the first run of zeros, if any, as "::", then the port |
| IPv6.PrintedReadsBack | src/modules/socket/address.cc:438-468 | the printed text of every address, read as section 2.2 of RFC 4291 says, is that address |
| IPv6.PrintedDoubleIff | src/modules/socket/address.cc:451-464 | "::" is printed once if some group is zero and not at all otherwise |
| IPv6.InsertedInjective | src/modules/socket/address.cc:438-468 | different addresses or ports print differently |
| IPv6.InsertedReads | src/modules/socket/address.cc:438-468 | the text is the address in brackets, a colon and the port in base ten |
| Clock.GetTime | src/modules/common/common.cc:13-22 | for years from 1000 on the text is read in base ten and gives the digits of the local time as one number: two digits each for second, minute, hour, day and month, and the year in front |
| Clock.InstantOfLocalTime | src/modules/common/common.cc:16-18 | the calendar is the Gregorian one: the t-th second has t seconds before it, leap years included |
| Clock.LocalTimeOfInstant | src/modules/common/common.cc:16-18 | every valid date is reached |
| Clock.ClockOvercounts | src/modules/common/common.cc:13-22 | a difference of two clock values is at least the seconds between them, and equal if and only if no minute ended in between |
| Clock.ClockIncreases | src/modules/common/common.cc:13-22 | the clock is strictly increasing |
| Clock.ExpiredEarlyIff | src/modules/Scheduler/mods/timer/timer.cc:43-59 | the exit test holds whenever more than m seconds have passed; it holds at some instant within m seconds if and only if those run into the next minute |
| Clock.Timer.Start | src/modules/Scheduler/mods/timer/timer.cc:35-60 | the callback is called once, at the first reading for which the test holds, hence not after the first reading more than m seconds after the start, and early only past the end of a minute |
| JsonSerial.SplitString | src/modules/protocol/JsonSerial.h:221-263 | the splitting loop |
| JsonSerial.SplitStringified | src/modules/protocol/JsonSerial.h:221-263 | it inverts the stringification of every list of member names |
| JsonSerial.JsonSerial.ToJson | src/modules/protocol/JsonSerial.h:106-199 | all members are stored under their names as what they are, an empty list leaving no trace; names and types are recorded from two members on |
| JsonSerial.JsonSerial.ToObj | src/modules/protocol/JsonSerial.h:202-219 | members are read back in the order of the names, each list appended to what its member holds; without recorded types nothing is read |
| JsonSerial.JsonSerial.JudgeType1 | src/modules/protocol/JsonSerial.h:307-398 | one member: a value of its type is taken over, a list behind what it holds; absent values read as empty, and text where a number is asked for throws |
| JsonSerial.ReadBack | src/modules/protocol/JsonSerial.h:106-219 | every member comes back, a list behind what the receiver's member held |
| JsonSerial.RestoredIff | src/modules/protocol/JsonSerial.h:307-398 | a message read over another is the message sent if and only if the other's lists were empty |
| JsonSerial.Transfer | src/core/tcpServer/tcpserver.cc:104-183 | sending and receiving restores the message if and only if the receiver's lists were empty, as those of a new message are |
| Scheduling.EachTaskOnce | src/modules/Scheduler/scheduler.cc:30-66 | over every interleaving the pool is bounded, each registered task has one fate or is queued in the order of registration, a drop has seen a full pool with no free thread, and no start is lost or repeated |
| Scheduling.RunOrdered | src/modules/Scheduler/scheduler.cc:30-66 | bound, order and the right fate of every task, kept by every step |
| Scheduling.RunConserved | src/modules/Scheduler/scheduler.cc:36-66 | starts of a task equal its finishes plus the threads still on it |
| Scheduling.Scheduler.RegistTask | src/modules/Scheduler/scheduler.cc:30-34 | the task is queued last |
| Scheduling.Scheduler.AssignTask | src/modules/Scheduler/scheduler.cc:36-66 | the loop over the pool, with the threads working between any two looks, is a run of looks behind the steps taken before; it decides one task, and earlier fates stand |
| Scheduling.Scheduler.Manage | src/modules/Scheduler/scheduler.cc:180-188 | ends with an empty queue, every task of it decided, and earlier fates stand |

## Left out

- Database.LevelDBList.RemoveAt: on an empty list the result is stated for stores and indices that together stay below
  2^64 - 2, where the wrapped loop bound cannot be reached.
- Database.LevelDBList.PopFront: the same.
- Database.RunList: the same bound for the whole run.
- Text.StoiToString: `std::stoi` is modelled without its range, so counts, lengths and indices from 2^31 on, which it would
  refuse, are not.
- MetaData.Chunk.Move: the metadata of an open chunk has a port if it has an address, without which the method reads behind
  the end of a vector.
- MetaData.Chunk.Rename: the same.
- ChunkServer.ChunkServer.ServeChunk: the range of `std::stoi`, as above.
- Master.MasterServer.Upload: all packages of one upload carry the same file name and path; attempts that do not reach the
  chunk server leave no trace; the server of the first chunk, which comes from the crash record, is a parameter.
- Master.MasterServer.StoreFile: leases are a parameter, as in the other handlers; whether a copy of a chunk succeeds is an
  answer from outside, and what one attempt does to the two chunk servers is stated by `Replication.SyncChunk`. A random
  choice other than the original's server must come at some time, since the loop that waits for it does not end otherwise;
  and the chunks the file had before must have metadata, since the copy loop reads a port that is not set otherwise.
- Master.MasterServer.MovePath: leases are a parameter; the answer to a request without a message behind it, which the
  handler dereferences, is not modelled; what chunk servers do on a 122 request is an answer from outside.
- Master.MasterServer.DeleteFile: the same for 113 requests. Unless there is a lease the counted chunks of the copies must
  have metadata, since the handler reads behind the end of a vector otherwise.
- Master.MasterServer.BuildIndex: the runtime updates of the index in the upload, copy, move and delete handlers, which do
  not agree with the rebuilt one.
- JsonSerial.Transfer: JSON text is taken to carry the object unchanged; members are of the three types messages have; one
  object is filled once.
- Scheduling.Scheduler.AssignTask: thread names, the exception of a thread that cannot be created, and pools shared by
  several schedulers.
- Clock.GetTime: years before 1000, where a leading zero would make the text octal; changes of the zone offset.
- IPv6.Insert: the groups are host-order values, which is what the always swapping `byteswapOnBigEndian` yields on a
  little-endian machine only.
- Failed writes of LevelDB, sockets, locks (`io_lock`), settings, logging and SQLite.
- `levelDBList::pop_back`, `push_front` and `insert`, which do not address the list's own slots.
- The one-argument chunk constructor, whose path is wrong and which nothing calls; `file::del`; `copy` and
  `record_chunk_meta_data`, which add nothing to the operations modelled.
- Renaming across copies (134), the list of files (126), heartbeats, replacing an unreachable server's chunks and
  synchronising a whole server.
- The lease manager, `check_free_thread`, `delete_task` and `reset_task`.
- The other address classes, `get_length` and `random_string`.
