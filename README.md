# papaya-p2p transfer core in Dafny

This project models the transfer core of the papaya-p2p client. It also models two small value types that the core relies on.

- **Chunk store engine** (`FileManager`, module `Persistence`):
  - `split` cuts a file into parts of 100,000,000 bytes named `"0"`, `"1"`, … and hashes each part. It writes the parts and the manifest (`<fileId>.papaya`), and saves a status in which every part is COMPLETE.
  - `joinStore` re-hashes the parts in manifest order and concatenates them. It stops at the first part that is missing, unreadable or mismatched.
  - `generateStatus` reconciles a manifest against the parts on disk.
  - `getCompletedParts` lists the names of the COMPLETE parts.
  - The callback registry (update, "new" and "deleted" functions). When generateStatus produces a status, or one is saved, the file's update function runs if registered, else the "new" function if set. Split runs only the "new" function, and only if it is set. Removing a store runs the "deleted" function.
- **Pure specification functions** (module `Chunking`): the chunking, part naming, join outcome, reconciliation rule and completed-part filter. The methods are proved against them, and the lemmas about them state the round trips (split then join gives back the bytes read) and the reconciliation rule (when no part has the output file's name, the status is COMPLETE exactly when joinStore returns a path).
- **Incoming PART_FILE handling** (`PartFileHandler.handle`, module `Handlers`):
  - the byte-level header parse: fileId at bytes 1..32, and the part name from byte 33 up to the first `#`;
  - the hash check;
  - the flip of one status entry to COMPLETE, the join whenever the status is COMPLETE after the flip (an accepted re-delivery to a complete file included), the save, and the request for the next part.
- **Peer message codes** (`PeerMessageType`, module `PeerMessages`): the enum table and `fromValue`, which falls back to INVALID.
- **Per-part status record** (`PartStatusFile`, module `LegacyStatusFiles`), as a mutable class: its constructors, its self-returning setters, and `addPeer` inserting into a peer set that is an object of its own, shared with whoever passed it in or fetched it.
- **Tracker peer record** (`Peer`, module `Tracker`): the `address:port` id, equality on address and port, and `hashCode` computed with Java's 32-bit int arithmetic.

How the environment is represented:
- The hash generator is a function `hash: Bytes -> string`, injected into `FileManager`.
- The store is a map from fileId to a directory value `Dir`. A `Dir` holds:
  - the parsed `*.papaya` manifests, where None means the JSON is unreadable;
  - the other files, where None means the file exists but cannot be read.
- The status service is a map from fileId to status.
- Callback runs are recorded in a ghost event log.
- Each input stream is the sequence of buffers that `read` returned.

## Model

| member | source | states |
|---|---|---|
| Chunking.CutFrom | papaya-client/src/main/java/dev/tronxi/papayaclient/persistence/FileManager.java:76-79 | definition: the parts `bytes[i..min(n, i+100,000,000)]` for i = from, from+100,000,000, …; its properties are CutFromCorrect |
| Chunking.Chunks | papaya-client/src/main/java/dev/tronxi/papayaclient/persistence/FileManager.java:72-89 | definition: the parts of every read, in read order; its properties are ChunksCorrect |
| Chunking.CutFromCorrect | papaya-client/src/main/java/dev/tronxi/papayaclient/persistence/FileManager.java:76-79 | one read buffer is cut into ceil(n/100,000,000) non-empty parts of at most 100,000,000 bytes, all but the last full, whose concatenation is the buffer |
| Chunking.ChunksCorrect | papaya-client/src/main/java/dev/tronxi/papayaclient/persistence/FileManager.java:66-89 | the parts of all reads are well sized and concatenated give back exactly the bytes read |
| Chunking.ConcatAppend | papaya-client/src/main/java/dev/tronxi/papayaclient/persistence/FileManager.java:72-89 | writing two runs of buffers one after the other writes their concatenation |
| Chunking.SplitScenario | papaya-client/src/main/java/dev/tronxi/papayaclient/persistence/FileManager.java:66-79 | a single 250,000,000-byte read yields parts of 100, 100 and 50 million bytes, in order |
| Chunking.PartRefs | papaya-client/src/main/java/dev/tronxi/papayaclient/persistence/FileManager.java:80-83 | definition: manifest entry k is (String.valueOf(k), hash of part k); stated by SplitManifestMatchesStatus |
| Chunking.CompleteEntries | papaya-client/src/main/java/dev/tronxi/papayaclient/persistence/FileManager.java:85-86 | definition: status entry k is (String.valueOf(k), hash of part k, COMPLETE); stated by SplitManifestMatchesStatus |
| Chunking.PartRefsSnoc | papaya-client/src/main/java/dev/tronxi/papayaclient/persistence/FileManager.java:80-83 | cutting one more part appends exactly its (name = running count, hash) entry to the manifest |
| Chunking.CompleteEntriesSnoc | papaya-client/src/main/java/dev/tronxi/papayaclient/persistence/FileManager.java:85-87 | cutting one more part appends exactly its COMPLETE entry to the status |
| Chunking.StoreChunks | papaya-client/src/main/java/dev/tronxi/papayaclient/persistence/FileManager.java:84 | writing parts never touches the manifest files |
| Chunking.StoreChunksRead | papaya-client/src/main/java/dev/tronxi/papayaclient/persistence/FileManager.java:80-84 | after split's writes, the file named k holds exactly the k-th part (distinct numbers give distinct names) |
| Chunking.StoreChunksSnoc | papaya-client/src/main/java/dev/tronxi/papayaclient/persistence/FileManager.java:84 | one more part adds exactly one file, named by the running count |
| Chunking.StoreChunksOthers | papaya-client/src/main/java/dev/tronxi/papayaclient/persistence/FileManager.java:84 | split's writes leave every file not named by a part number unchanged |
| Chunking.SplitManifestMatchesStatus | papaya-client/src/main/java/dev/tronxi/papayaclient/persistence/FileManager.java:80-87 | manifest and status have one entry per part, with identical name and hash, the name is the decimal part number, and every status entry is COMPLETE |
| Chunking.JoinParts | papaya-client/src/main/java/dev/tronxi/papayaclient/persistence/FileManager.java:121-137 | definition: the join loop's outcome, the output so far and whether a part failed; stated by JoinPartsCorrect and JoinStopsAtFirstMismatch |
| Chunking.JoinPartsCorrect | papaya-client/src/main/java/dev/tronxi/papayaclient/persistence/FileManager.java:121-141 | join succeeds exactly when every part exists, is readable and hashes to its manifest hash, and then yields the parts concatenated in manifest order |
| Chunking.Verified | papaya-client/src/main/java/dev/tronxi/papayaclient/persistence/FileManager.java:125-127 | definition: the part exists, can be read and hashes to the manifest hash (also the check at 169-178); stated by JoinPartsCorrect and ReconcileCompleteIffJoins |
| Chunking.JoinPartsSameParts | papaya-client/src/main/java/dev/tronxi/papayaclient/persistence/FileManager.java:121-137 | join's outcome depends only on the files the manifest names |
| Chunking.JoinPartsRejectedExtends | papaya-client/src/main/java/dev/tronxi/papayaclient/persistence/FileManager.java:127-136 | once a part fails, later parts change nothing |
| Chunking.JoinStopsAtFirstMismatch | papaya-client/src/main/java/dev/tronxi/papayaclient/persistence/FileManager.java:124-136 | when part `bad` is the first bad part, the output file holds exactly the parts before it and no path is returned |
| Chunking.Reconcile | papaya-client/src/main/java/dev/tronxi/papayaclient/persistence/FileManager.java:166-188 | definition: one entry per manifest part with its name and hash, COMPLETE iff the part exists, is readable and hashes to the manifest hash |
| Chunking.ReconcileCompleteIffJoins | papaya-client/src/main/java/dev/tronxi/papayaclient/persistence/FileManager.java:166-188 | the generated status is COMPLETE exactly when the join loop over the directory as it stands, before the output file is opened, succeeds |
| Chunking.SplitStoreReconciles | papaya-client/src/main/java/dev/tronxi/papayaclient/persistence/FileManager.java:166-188 | reconciling a freshly split store gives back exactly the status split saved |
| Chunking.CorruptPartReconciles | papaya-client/src/main/java/dev/tronxi/papayaclient/persistence/FileManager.java:171-178 | replacing one part by bytes with a different hash makes exactly that entry INCOMPLETE |
| Chunking.ReconcileWithoutParts | papaya-client/src/main/java/dev/tronxi/papayaclient/persistence/FileManager.java:184-187 | with no part files present, every entry is INCOMPLETE with the manifest's name and hash |
| Chunking.SplitJoinRoundTrip | papaya-client/src/main/java/dev/tronxi/papayaclient/persistence/FileManager.java:66-141 | joining the parts split wrote, with split's manifest entries, yields exactly the bytes read |
| Chunking.CompletedNames | papaya-client/src/main/java/dev/tronxi/papayaclient/persistence/FileManager.java:299-303 | definition: the stream filter on COMPLETE followed by the map to names; stated by the CompletedNames lemmas |
| Chunking.CompletedNamesMembers | papaya-client/src/main/java/dev/tronxi/papayaclient/persistence/FileManager.java:299-303 | a name is listed exactly when some COMPLETE entry carries it |
| Chunking.CompletedNamesExactly | papaya-client/src/main/java/dev/tronxi/papayaclient/persistence/FileManager.java:299-303 | the list is no longer than the status and holds exactly the COMPLETE names |
| Chunking.CompletedNamesLength | papaya-client/src/main/java/dev/tronxi/papayaclient/persistence/FileManager.java:299-303 | filtering never lengthens the list |
| Chunking.CompletedNamesAppend | papaya-client/src/main/java/dev/tronxi/papayaclient/persistence/FileManager.java:299-303 | the filter keeps status order |
| Chunking.CompletedNamesAllComplete | papaya-client/src/main/java/dev/tronxi/papayaclient/persistence/FileManager.java:299-303 | when every entry is COMPLETE the list is every name, in status order |
| Chunking.SplitPartsAllCompleted | papaya-client/src/main/java/dev/tronxi/papayaclient/persistence/FileManager.java:85-87 | after split, getCompletedParts reports "0" … "n-1", in order |
| Persistence.Notification | papaya-client/src/main/java/dev/tronxi/papayaclient/persistence/FileManager.java:189-195 | at most one callback runs: the file's update function if registered, else the "new" function if set, else none |
| Persistence.SoleManifest | papaya-client/src/main/java/dev/tronxi/papayaclient/persistence/FileManager.java:107-116 | definition: the parsed manifest when the glob `*.papaya` matches exactly one file (also 155-164); stated by SoleManifestIs |
| Persistence.SoleManifestIs | papaya-client/src/main/java/dev/tronxi/papayaclient/persistence/FileManager.java:107-113 | when the glob matches exactly one file, that file is the manifest used |
| Persistence.WithPart | papaya-client/src/main/java/dev/tronxi/papayaclient/persistence/FileManager.java:258-271 | the part file holds exactly the content; the manifests, the other files and the other directories are unchanged |
| Persistence.Opened | papaya-client/src/main/java/dev/tronxi/papayaclient/persistence/FileManager.java:120 | opening the output file leaves it existing and empty, and every other file and the manifests as they were |
| Persistence.JoinStoreEffect | papaya-client/src/main/java/dev/tronxi/papayaclient/persistence/FileManager.java:104-150 | definition: joinStore's result and the store it leaves, for every path of the source, with the parts read after the output file is opened; stated by JoinStoreSucceeds |
| Persistence.JoinStoreSucceeds | papaya-client/src/main/java/dev/tronxi/papayaclient/persistence/FileManager.java:104-150 | joinStore returns a path exactly when the directory has one readable manifest and every part verifies once the output file is opened; the path is `<dir>/<fileName>` holding the concatenated parts |
| Persistence.JoinTruncatesOwnPart | papaya-client/src/main/java/dev/tronxi/papayaclient/persistence/FileManager.java:117-127 | when the manifest's first part has the output file's name (and a hash other than that of no bytes), opening the output empties it and the join returns no path |
| Persistence.ReconcileCompleteIffJoinStore | papaya-client/src/main/java/dev/tronxi/papayaclient/persistence/FileManager.java:107-188 | when no part has the output file's name, the status generateStatus builds is COMPLETE exactly when joinStore of the same directory returns a path |
| Persistence.SplitStore | papaya-client/src/main/java/dev/tronxi/papayaclient/persistence/FileManager.java:66-91 | definition: the store split leaves when no read fails (parts written, manifest `<fileId>.papaya` added) |
| Persistence.SplitThenJoin | papaya-client/src/main/java/dev/tronxi/papayaclient/persistence/FileManager.java:56-150 | when the file's name is none of its part names, joining the directory split wrote returns `<store>/<fileId>/<fileName>`, holding exactly the bytes read, and changes nothing else |
| Persistence.FileManager.constructor | papaya-client/src/main/java/dev/tronxi/papayaclient/persistence/FileManager.java:43-48 | the manager works over the store and the status service as they stand (files and statuses of earlier runs kept unchanged); only the callback registry starts empty |
| Persistence.FileManager.Notify | papaya-client/src/main/java/dev/tronxi/papayaclient/persistence/FileManager.java:189-195 | appends exactly the callback run that Notification selects |
| Persistence.FileManager.Split | papaya-client/src/main/java/dev/tronxi/papayaclient/persistence/FileManager.java:56-102 | always returns `store/<fileId>`; on success the store is SplitStore, the status has every part COMPLETE and the "new" callback runs; on a read failure only the parts already cut are written |
| Persistence.FileManager.WriteParts | papaya-client/src/main/java/dev/tronxi/papayaclient/persistence/FileManager.java:66-89 | the part loop over all reads collects the manifest entries PartRefs and the status entries CompleteEntries and writes StoreChunks |
| Persistence.FileManager.CutBuffer | papaya-client/src/main/java/dev/tronxi/papayaclient/persistence/FileManager.java:76-88 | the inner loop appends CutFrom's parts, numbered on from the running count, to the manifest, the status and the store |
| Persistence.FileManager.JoinStore | papaya-client/src/main/java/dev/tronxi/papayaclient/persistence/FileManager.java:104-150 | result and store are JoinStoreEffect: nothing without exactly one readable manifest, otherwise the output file receives the verified prefix and the path is returned only when all parts verify |
| Persistence.FileManager.GenerateStatus | papaya-client/src/main/java/dev/tronxi/papayaclient/persistence/FileManager.java:152-207 | no status without exactly one readable manifest; otherwise one entry per manifest part, COMPLETE iff verified, the callback runs, the status is saved and `<dir>/<fileId>.papayastatus` is returned |
| Persistence.FileManager.RetrievePapayaFileFromFileId | papaya-client/src/main/java/dev/tronxi/papayaclient/persistence/FileManager.java:209-229 | present exactly when `<store>/<fileId>/<fileId>.papaya` exists and parses, and then it is that parsed manifest |
| Persistence.FileManager.RetrievePapayaStatusFile | papaya-client/src/main/java/dev/tronxi/papayaclient/persistence/FileManager.java:231-233 | present exactly when a status is saved for the fileId, and it is that file's status |
| Persistence.FileManager.SavePapayaStatusFile | papaya-client/src/main/java/dev/tronxi/papayaclient/persistence/FileManager.java:235-245 | saves the status under its fileId, then runs the callback Notification selects |
| Persistence.FileManager.SavePartStatusFile | papaya-client/src/main/java/dev/tronxi/papayaclient/persistence/FileManager.java:247-256 | appends the part status to the repository, then runs the callback for the file's status |
| Persistence.FileManager.WritePart | papaya-client/src/main/java/dev/tronxi/papayaclient/persistence/FileManager.java:258-271 | the store becomes WithPart: the directory is created if missing and the file holds the content |
| Persistence.FileManager.CreateStoreFromPapayaFile | papaya-client/src/main/java/dev/tronxi/papayaclient/persistence/FileManager.java:273-291 | an existing store is left alone; otherwise the store holds only the manifest and the generated status has every part INCOMPLETE |
| Persistence.FileManager.GetCompletedParts | papaya-client/src/main/java/dev/tronxi/papayaclient/persistence/FileManager.java:293-304 | empty for an unknown fileId; otherwise the CompletedNames filter of the saved status (in status order), holding exactly the names of COMPLETE entries and never more names than entries |
| Persistence.FileManager.SetNewPapayaStatusFileFunction | papaya-client/src/main/java/dev/tronxi/papayaclient/persistence/FileManager.java:306-308 | the "new" callback is set |
| Persistence.FileManager.AddUpdateFunction | papaya-client/src/main/java/dev/tronxi/papayaclient/persistence/FileManager.java:310-312 | registers the update function, replacing any earlier one for that fileId and no other |
| Persistence.FileManager.SetDeletedPapayaStatusFileFunction | papaya-client/src/main/java/dev/tronxi/papayaclient/persistence/FileManager.java:314-316 | the "deleted" callback is set |
| Persistence.FileManager.RemovePapayaFolder | papaya-client/src/main/java/dev/tronxi/papayaclient/persistence/FileManager.java:326-341 | nothing happens unless the directory exists; otherwise only that fileId's status, directory and update function go, then the "deleted" callback runs |
| PapayaFiles.PapayaStatusFile.Status | papaya-client/src/main/java/dev/tronxi/papayaclient/peer/handlers/PartFileHandler.java:60 | the aggregate status is COMPLETE exactly when every part entry is COMPLETE |
| PapayaFiles.ReadPart | papaya-client/src/main/java/dev/tronxi/papayaclient/persistence/FileManager.java:125 | a part can be read exactly when it exists and is readable |
| Handlers.FirstDelimiter | papaya-client/src/main/java/dev/tronxi/papayaclient/peer/handlers/PartFileHandler.java:38-46 | the index of the first `#` at or after the start |
| Handlers.ParseHeader | papaya-client/src/main/java/dev/tronxi/papayaclient/peer/handlers/PartFileHandler.java:36-48 | the fileId is the 32 bytes 1..32, the name is `#`-free, and the message is byte 0, fileId, name, `#` and payload |
| Handlers.ParseHeaderRoundTrip | papaya-client/src/main/java/dev/tronxi/papayaclient/peer/handlers/PartFileHandler.java:36-48 | parsing a message laid out as type, fileId, `#`-free name, `#`, payload gives back every field, whatever byte 0 holds |
| Handlers.ReadPartName | papaya-client/src/main/java/dev/tronxi/papayaclient/peer/handlers/PartFileHandler.java:37-48 | the do-while collects exactly the name and stops just past the first `#`, where the payload begins |
| Handlers.Latin1 | papaya-client/src/main/java/dev/tronxi/papayaclient/peer/handlers/PartFileHandler.java:49 | one character per byte |
| Handlers.FirstPartNamed | papaya-client/src/main/java/dev/tronxi/papayaclient/peer/handlers/PartFileHandler.java:52-55 | the first entry with that name, or none when no entry has it |
| Handlers.MarkComplete | papaya-client/src/main/java/dev/tronxi/papayaclient/peer/handlers/PartFileHandler.java:59 | entry k becomes COMPLETE; the status keeps its length and its fileId (the rest in MarkCompleteEffect) |
| Handlers.Accepts | papaya-client/src/main/java/dev/tronxi/papayaclient/peer/handlers/PartFileHandler.java:49-57 | definition: a status exists for the fileId, a part of that name is found, and the payload hashes to its recorded hash |
| Handlers.Flipped | papaya-client/src/main/java/dev/tronxi/papayaclient/peer/handlers/PartFileHandler.java:52-59 | definition: the saved status with its first entry of the part's name set COMPLETE; stated by MarkComplete and MarkCompleteEffect |
| Handlers.MarkCompleteEffect | papaya-client/src/main/java/dev/tronxi/papayaclient/peer/handlers/PartFileHandler.java:59-60 | only entry k becomes COMPLETE; the file is then complete exactly when all other entries were, and the part is reported complete |
| Handlers.MarkCompleteIdempotent | papaya-client/src/main/java/dev/tronxi/papayaclient/peer/handlers/PartFileHandler.java:59 | re-delivering an already COMPLETE part leaves the status as it was |
| Handlers.LogLine | papaya-client/src/main/java/dev/tronxi/papayaclient/peer/handlers/PartFileHandler.java:76-77 | definition: the returned line with source, fileId, part name and payload size |
| Handlers.LogLineReportsPayloadSize | papaya-client/src/main/java/dev/tronxi/papayaclient/peer/handlers/PartFileHandler.java:76-78 | the returned line ends with the payload's byte count in decimal |
| Handlers.PartFileHandler.constructor | papaya-client/src/main/java/dev/tronxi/papayaclient/peer/handlers/PartFileHandler.java:24-28 | the handler uses the given file manager and has sent nothing |
| Handlers.PartFileHandler.Handle | papaya-client/src/main/java/dev/tronxi/papayaclient/peer/handlers/PartFileHandler.java:31-83 | with no status, no named part or a hash mismatch, nothing is written, saved or sent; otherwise the payload is written, only the first entry of that name is flipped, the file is joined whenever its status is COMPLETE after the flip (an accepted re-delivery to a complete file included), the status is saved with its callback and sent; the line reports the payload size |
| PeerMessages.PeerMessageType.GetValue | papaya-client/src/main/java/dev/tronxi/papayaclient/peer/PeerMessageType.java:14-20 | the code the constant was constructed with, always in -1..3 (the table itself in CodeTable) |
| PeerMessages.CodeTable | papaya-client/src/main/java/dev/tronxi/papayaclient/peer/PeerMessageType.java:5-20 | the codes are -1, 0, 1, 2, 3 as declared, and values() lists every constant |
| PeerMessages.FindByValue | papaya-client/src/main/java/dev/tronxi/papayaclient/peer/PeerMessageType.java:23-27 | a found constant has the code asked for; none is found only when no listed constant has it |
| PeerMessages.FromValue | papaya-client/src/main/java/dev/tronxi/papayaclient/peer/PeerMessageType.java:22-29 | the result has the code asked for exactly when some constant has it; otherwise the result is INVALID |
| PeerMessages.CodesDistinct | papaya-client/src/main/java/dev/tronxi/papayaclient/peer/PeerMessageType.java:5-9 | the codes are pairwise distinct |
| PeerMessages.FromValueGetValue | papaya-client/src/main/java/dev/tronxi/papayaclient/peer/PeerMessageType.java:18-29 | looking up a constant's own code gives that constant, INVALID included |
| PeerMessages.FromValueOutsideTable | papaya-client/src/main/java/dev/tronxi/papayaclient/peer/PeerMessageType.java:28 | every integer outside -1..3 maps to INVALID |
| LegacyStatusFiles.PeerSet.constructor | src/main/java/dev/tronxi/papayaclient/files/papayastatusfile/PartStatusFile.java:16 | a new HashSet is empty |
| LegacyStatusFiles.PartStatusFile.constructor | src/main/java/dev/tronxi/papayaclient/files/papayastatusfile/PartStatusFile.java:12-17 | stores name, hash and status, with a new, empty peer set of its own |
| LegacyStatusFiles.PartStatusFile.Empty | src/main/java/dev/tronxi/papayaclient/files/papayastatusfile/PartStatusFile.java:19-21 | every field, the peer set included, is null |
| LegacyStatusFiles.PartStatusFile.SetFileHash | src/main/java/dev/tronxi/papayaclient/files/papayastatusfile/PartStatusFile.java:27-30 | changes only the hash and returns the same object |
| LegacyStatusFiles.PartStatusFile.SetFileName | src/main/java/dev/tronxi/papayaclient/files/papayastatusfile/PartStatusFile.java:36-39 | changes only the name and returns the same object |
| LegacyStatusFiles.PartStatusFile.SetStatus | src/main/java/dev/tronxi/papayaclient/files/papayastatusfile/PartStatusFile.java:45-48 | changes only the status and returns the same object |
| LegacyStatusFiles.PartStatusFile.GetPartPeerStatusFiles | src/main/java/dev/tronxi/papayaclient/files/papayastatusfile/PartStatusFile.java:50-52 | hands out the live peer set itself, not a copy |
| LegacyStatusFiles.PartStatusFile.SetPartPeerStatusFiles | src/main/java/dev/tronxi/papayaclient/files/papayastatusfile/PartStatusFile.java:54-57 | keeps a reference to the caller's set (shared from then on), changes nothing else and returns the same object |
| LegacyStatusFiles.PartStatusFile.AddPeer | src/main/java/dev/tronxi/papayaclient/files/papayastatusfile/PartStatusFile.java:59-61 | insertion into the shared set object: it gains the peer, adding a present peer changes nothing, and the set must have been assigned |
| LegacyStatusFiles.SharedPeerSet | src/main/java/dev/tronxi/papayaclient/files/papayastatusfile/PartStatusFile.java:50-61 | two records given the same set share it: a peer added through one is in the set the other hands out |
| Tracker.Of | papaya-tracker/src/main/java/dev/tronxi/papayatracker/models/Peer.java:11-14 | address, port and the given time are copied, and the id is the address followed by ':' and the port (round trip in OfIdRoundTrip) |
| Tracker.Equals | papaya-tracker/src/main/java/dev/tronxi/papayatracker/models/Peer.java:16-22 | definition: the same object, or a peer with the same port and address; null and other classes are never equal; stated by EqualsIff |
| Tracker.StringHashCode | papaya-tracker/src/main/java/dev/tronxi/papayatracker/models/Peer.java:26 | definition: String.hashCode, h = 31·h + c over the characters in int arithmetic |
| Tracker.HashCode | papaya-tracker/src/main/java/dev/tronxi/papayatracker/models/Peer.java:24-27 | definition: Objects.hash(address, port) in int arithmetic; stated by EqualPeersHashAlike |
| Tracker.WrapInt | papaya-tracker/src/main/java/dev/tronxi/papayatracker/models/Peer.java:24-27 | the result is the Java int congruent to the value modulo 2^32 |
| Tracker.LastIndexOf | papaya-tracker/src/main/java/dev/tronxi/papayatracker/models/Peer.java:12 | the last position of the character, or none when it does not occur |
| Tracker.OfIdRoundTrip | papaya-tracker/src/main/java/dev/tronxi/papayatracker/models/Peer.java:11-14 | the id `address:port` splits back, at its last ':', into the address and port it was built from |
| Tracker.EqualsIff | papaya-tracker/src/main/java/dev/tronxi/papayatracker/models/Peer.java:16-22 | equal exactly to another peer with the same address and port; never to null or another class |
| Tracker.EqualsIsEquivalence | papaya-tracker/src/main/java/dev/tronxi/papayatracker/models/Peer.java:16-22 | equals is reflexive, symmetric and transitive on peers |
| Tracker.OfIgnoresMillis | papaya-tracker/src/main/java/dev/tronxi/papayatracker/models/Peer.java:11-22 | two peers made from the same DTO at different times are equal |
| Tracker.EqualPeersHashAlike | papaya-tracker/src/main/java/dev/tronxi/papayatracker/models/Peer.java:24-27 | equal peers have equal hash codes |
| Decimal.NatToString | papaya-client/src/main/java/dev/tronxi/papayaclient/persistence/FileManager.java:80 | String.valueOf of a part number is a non-empty digit string with no leading zero |
| Decimal.ParseNatToString | papaya-client/src/main/java/dev/tronxi/papayaclient/persistence/FileManager.java:80 | the part name reads back as its number |
| Decimal.NatToStringInjective | papaya-client/src/main/java/dev/tronxi/papayaclient/persistence/FileManager.java:80 | distinct part numbers give distinct part names |
| Decimal.IntToString | papaya-tracker/src/main/java/dev/tronxi/papayatracker/models/Peer.java:12 | the port's text is non-empty, signed exactly when negative, and free of ':' |
| Decimal.ParseIntToString | papaya-tracker/src/main/java/dev/tronxi/papayatracker/models/Peer.java:12 | the port's text reads back as the port |

## Left out

- JSON (de)serialisation of manifests (Jackson): a manifest is an already parsed value, or None when it cannot be read.
- Real file and stream I/O:
  - the 2,000,000,000-byte read buffer (no read exceeds it, so no int index overflows);
  - globbing, and `deleteDirectory`'s walk and its per-file failures;
  - path resolution against the workspace;
  - the file system is a map of directory values.
- Persistence.FileManager.Split: `readFails` models an IOException raised after the given reads. A failure while writing a single part, or while writing the manifest, is not modelled separately.
- Persistence.FileManager.Split: the fileId comes from `new PapayaFile(name)`, whose definition is not part of this model. It is taken as a parameter.
- Persistence.FileManager.JoinStore, GenerateStatus and WritePart: the model keeps manifests and other files apart, so a file whose name ends in ".papaya" but is written as data is not treated as a manifest. In the source, joining a file named "movie.papaya" writes `<dir>/movie.papaya`, so the glob then matches two files and every later join and status generation of that directory returns empty; the model still finds the one manifest. In the other direction, a manifest part named `<x>.papaya` reconciles to INCOMPLETE in the model, while the source reads and hashes that file.
- Persistence.FileManager.JoinStore: the output file is opened, and so emptied, before any part is read, as in the source. A file named like one of its own parts ("0", say) therefore loses that part and never joins; Persistence.SplitThenJoin assumes the name is none of the part names. While parts are written, the model reads a part of the output's name as the empty file; the source reads the bytes written so far. The two differ only for such a part at a later position.
- Chunking.ReconcileCompleteIffJoins: compares the status with the join loop over the directory before the output file is opened. When the output file has the name of one of its parts, generateStatus can report COMPLETE while joinStore fails and empties that part; Persistence.ReconcileCompleteIffJoinStore states the agreement with joinStore for the other manifests.
- Persistence.FileManager.JoinStore:
  - the failure to open the output file (which still returns the path) is not modelled.
- Persistence.FileManager.GenerateStatus and CreateStoreFromPapayaFile: the `.papayastatus` path is returned but nothing is written there, as in the source; a failed manifest write is not modelled.
- Persistence.FileManager.RetrievePapayaFileFromFileId: `retrievePapayaFileFromFile` on an arbitrary file is modelled only through this fileId form.
- `findAll` and `getPapayaFolder`: they only forward to the status service or resolve a path.
- The hash algorithm inside HashGenerator: it is an arbitrary deterministic function.
- Handlers.Latin1: ByteArrayOutputStream.toString decodes with the platform charset. The model decodes one character per byte, which agrees with UTF-8 on the ASCII ids and names the protocol uses.
- Handlers.PartFileHandler.Handle:
  - a message without a `#` at or after byte 33 makes the source throw; that is excluded by a precondition;
  - the socket's address and port are given as the `source` text;
  - the network send is recorded in a ghost log;
  - the store path of the Handler base class is taken to be the file manager's store.
- Handlers.PartFileHandler.Handle: `setStatus` mutates the retrieved status object in place. The model updates a status value and saves it, which is the same as long as the status service hands out no other alias of that object.
- PapayaFiles.PapayaStatusFile.Status: the persistence-package PapayaStatusFile is not part of this model. Its aggregate status is taken as COMPLETE exactly when every part is COMPLETE.
- LegacyStatusFiles.PartStatusFile: PartPeerStatusFile is not part of this model. It is a type parameter with equality. The getters of name, hash and status and toString are not modelled; the peer-set getter is, since it hands out the shared set.
- Tracker.Of: `System.currentTimeMillis()` is the parameter `millis`.
- Tracker.HashCode and Tracker.StringHashCode: a null address (hash 0) is not modelled. String.hashCode runs over UTF-16 code units, and the model uses one unit per character, which agrees outside the supplementary planes.
- Concurrency: every FileManager method and PartFileHandler.handle is modelled as one atomic step. In the client, split runs on a background task while handle runs once per peer connection, with no locking; `updateFunctions` is a plain HashMap, and handle's retrieve, setStatus and save is an unguarded read-modify-write. Interleavings, such as two parts of one file arriving on two connections with one flip lost, or concurrent access to the callback map, are not modelled.
- Logging, Redis annotations, the JavaFX UI, the Solr registry repository and the persistence services behind the status service. The services are a map from fileId to status and a list of saved part statuses.
