/**
  FileManager: the client's chunk store engine. It splits a file into
  parts, joins a store directory back into a file, reconciles a manifest
  against the parts on disk, and notifies the UI through a small registry
  of callbacks whenever a status is produced, saved or removed.
 */
module Persistence {
  import opened Wrappers
  import opened Decimal
  import opened PapayaFiles
  import opened Chunking

  /** A callback the UI registered, by identity. */
  type CallbackId = nat

  /** A callback run, in the order FileManager runs them. */
  datatype Event =
    | Updated(callback: CallbackId, status: PapayaStatusFile)
    | Created(callback: CallbackId, status: PapayaStatusFile)
    | Deleted(callback: CallbackId)

  /**
    The callbacks run after a status is produced or saved: the file's own
    update function if one is registered, else the "new" function if one is
    set, else none.
   */
  function Notification(updateFunctions: map<string, CallbackId>, newFunction: Option<CallbackId>, s: PapayaStatusFile): (r: seq<Event>)
    ensures |r| <= 1
    ensures s.fileId in updateFunctions ==> r == [Updated(updateFunctions[s.fileId], s)]
    ensures s.fileId !in updateFunctions ==> (r != [] <==> newFunction.Some?)
    ensures s.fileId !in updateFunctions && newFunction.Some? ==> r == [Created(newFunction.value, s)]
  {
    if s.fileId in updateFunctions then [Updated(updateFunctions[s.fileId], s)]
    else if newFunction.Some? then [Created(newFunction.value, s)]
    else []
  }

  /** The manifest of a directory, when the glob `*.papaya` matches exactly one file and it parses. */
  ghost function SoleManifest(d: Dir): Option<PapayaFile> {
    if |d.manifests| == 1 then var name :| name in d.manifests; d.manifests[name] else None
  }

  lemma SoleManifestIs(d: Dir, name: string)
    requires |d.manifests| == 1 && name in d.manifests
    ensures SoleManifest(d) == d.manifests[name]
  {
    var keys := d.manifests.Keys;
    assert |keys - {name}| == 0;
    assert keys == {name};
  }

  /** The directory a file manager writes into for fileId; mkdirs creates it empty. */
  function DirOrEmpty(dirs: map<string, Dir>, fileId: string): Dir {
    if fileId in dirs then dirs[fileId] else EmptyDir
  }

  /** writePart: `<store>/<fileId>/<name>` now holds exactly `content`. */
  function WithPart(dirs: map<string, Dir>, fileId: string, name: string, content: Bytes): (r: map<string, Dir>)
    ensures fileId in r && ReadPart(r[fileId], name) == Some(content)
    ensures r[fileId].manifests == DirOrEmpty(dirs, fileId).manifests
    ensures forall n :: n != name ==> ReadPart(r[fileId], n) == ReadPart(DirOrEmpty(dirs, fileId), n)
    ensures forall id :: id != fileId ==> (id in r <==> id in dirs) && (id in dirs ==> r[id] == dirs[id])
  {
    var d := DirOrEmpty(dirs, fileId);
    dirs[fileId := d.(parts := d.parts[name := Some(content)])]
  }

  /**
    new FileOutputStream(<dir>/<name>): the output file exists and is empty
    from then on, truncating any file of that name.
   */
  function Opened(d: Dir, name: string): (r: Dir)
    ensures r.manifests == d.manifests && ReadPart(r, name) == Some([])
    ensures forall n :: n != name ==> ReadPart(r, n) == ReadPart(d, n)
  {
    d.(parts := d.parts[name := Some([])])
  }

  /**
    What joinStore returns and leaves on disk. No path, and nothing written,
    when the directory is missing, the glob does not match exactly one
    manifest or the manifest cannot be read. Otherwise the output file
    `<dir>/<fileName>` is opened (and so emptied) before any part is read,
    and receives the parts in manifest order; the path is returned only
    when every part was read and hashed to its manifest hash.
   */
  ghost function JoinStoreEffect(hash: Bytes -> string, dirs: map<string, Dir>, dirId: string): (Option<Location>, map<string, Dir>) {
    if dirId !in dirs then (None, dirs)
    else
      var d := dirs[dirId];
      match SoleManifest(d)
      case None => (None, dirs)
      case Some(m) =>
        match JoinParts(hash, Opened(d, m.fileName), m.partFiles)
        case Joined(b) => (Some(InStore(dirId, m.fileName)), dirs[dirId := d.(parts := d.parts[m.fileName := Some(b)])])
        case Rejected(w) => (None, dirs[dirId := d.(parts := d.parts[m.fileName := Some(w)])])
  }

  /** A join that returns a path wrote exactly the concatenation of the verified parts. */
  lemma JoinStoreSucceeds(hash: Bytes -> string, dirs: map<string, Dir>, dirId: string)
    ensures var (path, after) := JoinStoreEffect(hash, dirs, dirId);
      path.Some? <==>
        dirId in dirs && SoleManifest(dirs[dirId]).Some? &&
        var m := SoleManifest(dirs[dirId]).value;
        AllVerified(hash, Opened(dirs[dirId], m.fileName), m.partFiles)
    ensures var (path, after) := JoinStoreEffect(hash, dirs, dirId);
      path.Some? ==>
        var m := SoleManifest(dirs[dirId]).value;
        var emptied := Opened(dirs[dirId], m.fileName);
        path == Some(InStore(dirId, m.fileName)) &&
        ReadPart(after[dirId], m.fileName) == Some(Concat(PartContents(hash, emptied, m.partFiles)))
  {
    if dirId in dirs && SoleManifest(dirs[dirId]).Some? {
      var m := SoleManifest(dirs[dirId]).value;
      JoinPartsCorrect(hash, Opened(dirs[dirId], m.fileName), m.partFiles);
    }
  }

  /**
    A manifest whose first part has the output file's own name, with a hash
    other than that of no bytes, never joins: opening the output empties
    that part before it is read, so its check fails.
   */
  lemma JoinTruncatesOwnPart(hash: Bytes -> string, dirs: map<string, Dir>, dirId: string)
    requires dirId in dirs && SoleManifest(dirs[dirId]).Some?
    requires var m := SoleManifest(dirs[dirId]).value;
      |m.partFiles| > 0 && m.partFiles[0].fileName == m.fileName && m.partFiles[0].fileHash != hash([])
    ensures JoinStoreEffect(hash, dirs, dirId).0 == None
  {
    var m := SoleManifest(dirs[dirId]).value;
    var emptied := Opened(dirs[dirId], m.fileName);
    JoinPartsCorrect(hash, emptied, m.partFiles);
    assert !Verified(hash, emptied, m.partFiles[0]);
  }

  /**
    generateStatus and joinStore judge a directory alike: when no part has
    the output file's name, the generated status is COMPLETE exactly when
    joinStore returns a path.
   */
  lemma ReconcileCompleteIffJoinStore(hash: Bytes -> string, dirs: map<string, Dir>, dirId: string)
    requires dirId in dirs && SoleManifest(dirs[dirId]).Some?
    requires var m := SoleManifest(dirs[dirId]).value;
      forall k :: 0 <= k < |m.partFiles| ==> m.partFiles[k].fileName != m.fileName
    ensures var m := SoleManifest(dirs[dirId]).value;
      (PapayaStatusFile(m.fileName, m.fileId, Reconcile(hash, dirs[dirId], m.partFiles)).Status() == COMPLETE
       <==> JoinStoreEffect(hash, dirs, dirId).0.Some?)
  {
    var d := dirs[dirId];
    var m := SoleManifest(d).value;
    JoinPartsSameParts(hash, d, Opened(d, m.fileName), m.partFiles);
    ReconcileCompleteIffJoins(hash, d, m);
  }

  /** The store split leaves behind when the stream does not fail. */
  function SplitStore(hash: Bytes -> string, dirs: map<string, Dir>, fileId: string, fileName: string, buffers: seq<Bytes>): map<string, Dir> {
    var stored := StoreChunks(DirOrEmpty(dirs, fileId), Chunks(buffers));
    var manifest := PapayaFile(fileId, fileName, PartRefs(hash, Chunks(buffers)));
    dirs[fileId := stored.(manifests := stored.manifests[fileId + ManifestSuffix := Some(manifest)])]
  }

  /**
    Joining the directory split wrote (when it held no other manifest)
    returns `<store>/<fileId>/<fileName>` holding exactly the bytes read.
   */
  lemma SplitThenJoin(hash: Bytes -> string, dirs: map<string, Dir>, fileId: string, fileName: string, buffers: seq<Bytes>)
    requires DirOrEmpty(dirs, fileId).manifests.Keys <= {fileId + ManifestSuffix}
    requires forall k :: 0 <= k < |Chunks(buffers)| ==> NatToString(k) != fileName
    ensures var after := SplitStore(hash, dirs, fileId, fileName, buffers);
      var (path, joined) := JoinStoreEffect(hash, after, fileId);
      path == Some(InStore(fileId, fileName)) &&
      joined == after[fileId := after[fileId].(parts := after[fileId].parts[fileName := Some(Concat(buffers))])]
  {
    var after := SplitStore(hash, dirs, fileId, fileName, buffers);
    var d := after[fileId];
    assert d.manifests.Keys == {fileId + ManifestSuffix};
    SoleManifestIs(d, fileId + ManifestSuffix);
    SplitJoinRoundTrip(hash, DirOrEmpty(dirs, fileId), buffers);
    var refs := PartRefs(hash, Chunks(buffers));
    assert JoinParts(hash, Opened(d, fileName), refs) == Joined(Concat(buffers)) by {
      JoinPartsSameParts(hash, Opened(d, fileName), StoreChunks(DirOrEmpty(dirs, fileId), Chunks(buffers)), refs);
    }
  }

  class FileManager {
    /** HashGenerator.generateHash, a deterministic function of the bytes. */
    const hash: Bytes -> string
    /** The directories `<store>/<fileId>/`. */
    var dirs: map<string, Dir>
    /** papayaStatusFileService: the saved status of each file, by fileId. */
    var statuses: map<string, PapayaStatusFile>
    /** partStatusFileRepository: the part statuses saved, in order. */
    var savedParts: seq<PartStatusFile>
    var updateFunctions: map<string, CallbackId>
    var newPapayaStatusFileFunction: Option<CallbackId>
    var deletedPapayaStatusFileFunction: Option<CallbackId>
    /** The callbacks run so far. */
    ghost var events: seq<Event>

    /** Every saved status is filed under its own fileId. */
    ghost predicate Valid()
      reads this
    {
      forall id :: id in statuses ==> statuses[id].fileId == id
    }

    /**
      The manager works over a store and a status service that may already
      hold files from earlier runs; only the callback registry starts empty.
     */
    constructor (hash: Bytes -> string, dirs: map<string, Dir>, statuses: map<string, PapayaStatusFile>, savedParts: seq<PartStatusFile>)
      requires forall id :: id in statuses ==> statuses[id].fileId == id
      ensures Valid() && this.hash == hash
      ensures this.dirs == dirs && this.statuses == statuses && this.savedParts == savedParts
      ensures updateFunctions == map[] && newPapayaStatusFileFunction == None && deletedPapayaStatusFileFunction == None
      ensures events == []
    {
      this.hash := hash;
      this.dirs, this.statuses, this.savedParts := dirs, statuses, savedParts;
      updateFunctions := map[];
      newPapayaStatusFileFunction, deletedPapayaStatusFileFunction := None, None;
      events := [];
    }

    /** Runs the callback a produced or saved status fires. */
    method Notify(s: PapayaStatusFile)
      modifies this`events
      ensures events == old(events) + Notification(updateFunctions, newPapayaStatusFileFunction, s)
    {
      events := events + Notification(updateFunctions, newPapayaStatusFileFunction, s);
    }

    /**
      split: the input arrives as the buffers `inputStream.read` returned; each
      buffer is cut into parts of at most PartSize bytes named "0", "1", ...
      across all buffers, each written to the store as it is cut. When the
      stream fails (`readFails`: an IOException after those buffers) the parts
      already written stay and nothing else happens. Otherwise the manifest is
      written, a status with every part COMPLETE is saved and the "new"
      callback runs. The store path is returned in both cases.
     */
    method Split(fileName: string, fileId: string, buffers: seq<Bytes>, readFails: bool) returns (path: Option<Location>)
      requires Valid()
      modifies this`dirs, this`statuses, this`events
      ensures Valid()
      ensures path == Some(StoreDir(fileId))
      ensures readFails ==> dirs == old(dirs)[fileId := StoreChunks(DirOrEmpty(old(dirs), fileId), Chunks(buffers))]
      ensures !readFails ==> dirs == SplitStore(hash, old(dirs), fileId, fileName, buffers)
      ensures readFails ==> statuses == old(statuses) && events == old(events)
      ensures !readFails ==>
        var s := PapayaStatusFile(fileName, fileId, CompleteEntries(hash, Chunks(buffers)));
        statuses == old(statuses)[fileId := s] &&
        events == old(events) + (if newPapayaStatusFileFunction.Some? then [Created(newPapayaStatusFileFunction.value, s)] else [])
    {
      var partFiles, partStatusFiles := WriteParts(fileId, buffers);
      ghost var stored := StoreChunks(DirOrEmpty(old(dirs), fileId), Chunks(buffers));
      if readFails {
        return Some(StoreDir(fileId));
      }
      var papayaFile := PapayaFile(fileId, fileName, partFiles);
      dirs := dirs[fileId := dirs[fileId].(manifests := dirs[fileId].manifests[fileId + ManifestSuffix := Some(papayaFile)])];
      assert dirs == old(dirs)[fileId := stored.(manifests := stored.manifests[fileId + ManifestSuffix := Some(papayaFile)])];
      var papayaStatusFile := PapayaStatusFile(fileName, fileId, partStatusFiles);
      statuses := statuses[fileId := papayaStatusFile];
      if newPapayaStatusFileFunction.Some? {
        events := events + [Created(newPapayaStatusFileFunction.value, papayaStatusFile)];
      }
      path := Some(StoreDir(fileId));
    }

    /**
      The part loop of split: cut every read buffer into parts, write them to
      the store directory of fileId and collect the manifest and status entries.
     */
    method WriteParts(fileId: string, buffers: seq<Bytes>) returns (partFiles: seq<PartFile>, partStatusFiles: seq<PartStatusFile>)
      modifies this`dirs
      ensures partFiles == PartRefs(hash, Chunks(buffers))
      ensures partStatusFiles == CompleteEntries(hash, Chunks(buffers))
      ensures dirs == old(dirs)[fileId := StoreChunks(DirOrEmpty(old(dirs), fileId), Chunks(buffers))]
    {
      partFiles, partStatusFiles := [], [];
      if fileId !in dirs {
        dirs := dirs[fileId := EmptyDir];
      }
      ghost var d0 := dirs[fileId];
      assert d0 == DirOrEmpty(old(dirs), fileId);
      var numPart: nat := 0;
      ghost var chunks: seq<Bytes> := [];
      var r := 0;
      while r < |buffers|
        invariant 0 <= r <= |buffers|
        invariant chunks == Chunks(buffers[..r]) && numPart == |chunks|
        invariant partFiles == PartRefs(hash, chunks)
        invariant partStatusFiles == CompleteEntries(hash, chunks)
        invariant dirs == old(dirs)[fileId := StoreChunks(d0, chunks)]
      {
        assert buffers[..r + 1][..r] == buffers[..r];
        partFiles, partStatusFiles, numPart, chunks := CutBuffer(fileId, buffers[r], d0, chunks, partFiles, partStatusFiles, numPart);
        r := r + 1;
      }
      assert buffers[..|buffers|] == buffers;
    }

    /**
      The inner loop of split: cut one read buffer into parts, naming each by
      the running part number, recording it in the manifest and status
      entries and writing it to the store.
     */
    method CutBuffer(fileId: string, bytes: Bytes, ghost d0: Dir, ghost chunks0: seq<Bytes>,
                     partFiles0: seq<PartFile>, partStatusFiles0: seq<PartStatusFile>, numPart0: nat)
      returns (partFiles: seq<PartFile>, partStatusFiles: seq<PartStatusFile>, numPart: nat, ghost chunks: seq<Bytes>)
      requires numPart0 == |chunks0|
      requires partFiles0 == PartRefs(hash, chunks0) && partStatusFiles0 == CompleteEntries(hash, chunks0)
      requires fileId in dirs && dirs[fileId] == StoreChunks(d0, chunks0)
      modifies this`dirs
      ensures chunks == chunks0 + CutFrom(bytes, 0) && numPart == |chunks|
      ensures partFiles == PartRefs(hash, chunks) && partStatusFiles == CompleteEntries(hash, chunks)
      ensures dirs == old(dirs)[fileId := StoreChunks(d0, chunks)]
    {
      partFiles, partStatusFiles, numPart, chunks := partFiles0, partStatusFiles0, numPart0, chunks0;
      var i: nat := 0;
      while i < |bytes|
        invariant chunks + CutFrom(bytes, i) == chunks0 + CutFrom(bytes, 0) && numPart == |chunks|
        invariant partFiles == PartRefs(hash, chunks)
        invariant partStatusFiles == CompleteEntries(hash, chunks)
        invariant dirs == old(dirs)[fileId := StoreChunks(d0, chunks)]
      {
        var end := Min(|bytes|, i + PartSize);
        var part := bytes[i..end];
        var partName := NatToString(numPart);
        var partHash := hash(part);
        partFiles := partFiles + [PartFile(partName, partHash)];
        dirs := dirs[fileId := dirs[fileId].(parts := dirs[fileId].parts[partName := Some(part)])];
        partStatusFiles := partStatusFiles + [PartStatusFile(partName, partHash, COMPLETE)];
        PartRefsSnoc(hash, chunks, part);
        CompleteEntriesSnoc(hash, chunks, part);
        StoreChunksSnoc(d0, chunks, part);
        assert CutFrom(bytes, i) == [part] + CutFrom(bytes, i + PartSize);
        assert chunks + CutFrom(bytes, i) == (chunks + [part]) + CutFrom(bytes, i + PartSize);
        chunks := chunks + [part];
        numPart := numPart + 1;
        i := i + PartSize;
      }
    }

    /** joinStore: re-hash every part in manifest order and concatenate them, failing on the first bad part. */
    method JoinStore(dirId: string) returns (path: Option<Location>)
      modifies this`dirs
      ensures (path, dirs) == JoinStoreEffect(hash, old(dirs), dirId)
    {
      if dirId !in dirs {
        return None;
      }
      var d := dirs[dirId];
      if |d.manifests| != 1 {
        return None;
      }
      var name :| name in d.manifests;
      SoleManifestIs(d, name);
      var maybePapayaFile := d.manifests[name];
      if maybePapayaFile.None? {
        return None;
      }
      var papayaFile := maybePapayaFile.value;
      var refs := papayaFile.partFiles;
      ghost var d0 := d;
      d := Opened(d, papayaFile.fileName);
      dirs := dirs[dirId := d];
      var output: Bytes := [];
      var i := 0;
      while i < |refs|
        invariant 0 <= i <= |refs|
        invariant JoinParts(hash, d, refs[..i]) == Joined(output)
      {
        var partFile := refs[i];
        assert refs[..i + 1][..i] == refs[..i];
        var partBytes := ReadPart(d, partFile.fileName);
        if partBytes.None? || hash(partBytes.value) != partFile.fileHash {
          JoinPartsRejectedExtends(hash, d, refs, i + 1, output);
          assert d.parts[papayaFile.fileName := Some(output)] == d0.parts[papayaFile.fileName := Some(output)];
          assert d.(parts := d.parts[papayaFile.fileName := Some(output)]) == d0.(parts := d0.parts[papayaFile.fileName := Some(output)]);
          assert JoinParts(hash, Opened(d0, papayaFile.fileName), refs) == Rejected(output);
          dirs := dirs[dirId := d.(parts := d.parts[papayaFile.fileName := Some(output)])];
          assert dirs == old(dirs)[dirId := d0.(parts := d0.parts[papayaFile.fileName := Some(output)])];
          return None;
        }
        output := output + partBytes.value;
        i := i + 1;
      }
      assert refs[..i] == refs;
      assert d.parts[papayaFile.fileName := Some(output)] == d0.parts[papayaFile.fileName := Some(output)];
      assert d.(parts := d.parts[papayaFile.fileName := Some(output)]) == d0.(parts := d0.parts[papayaFile.fileName := Some(output)]);
      dirs := dirs[dirId := d.(parts := d.parts[papayaFile.fileName := Some(output)])];
      assert dirs == old(dirs)[dirId := d0.(parts := d0.parts[papayaFile.fileName := Some(output)])];
      path := Some(InStore(dirId, papayaFile.fileName));
    }

    /** The manifest generateStatus and joinStore would use for a directory. */
    ghost function StoredManifest(dirId: string): Option<PapayaFile>
      reads this
    {
      if dirId in dirs then SoleManifest(dirs[dirId]) else None
    }

    /**
      generateStatus: one entry per manifest part, COMPLETE exactly when the
      part exists, can be read and hashes to the manifest hash; the status
      fires its callback and is saved.
     */
    method GenerateStatus(dirId: string) returns (path: Option<Location>)
      requires Valid()
      modifies this`statuses, this`events
      ensures Valid()
      ensures StoredManifest(dirId).None? ==> path == None && statuses == old(statuses) && events == old(events)
      ensures StoredManifest(dirId).Some? ==>
        var m := StoredManifest(dirId).value;
        var s := PapayaStatusFile(m.fileName, m.fileId, Reconcile(hash, dirs[dirId], m.partFiles));
        path == Some(InStore(dirId, m.fileId + StatusSuffix)) &&
        statuses == old(statuses)[m.fileId := s] &&
        events == old(events) + Notification(updateFunctions, newPapayaStatusFileFunction, s)
    {
      if dirId !in dirs {
        return None;
      }
      var d := dirs[dirId];
      if |d.manifests| != 1 {
        return None;
      }
      var name :| name in d.manifests;
      SoleManifestIs(d, name);
      var maybePapayaFile := d.manifests[name];
      if maybePapayaFile.None? {
        return None;
      }
      var papayaFile := maybePapayaFile.value;
      var refs := papayaFile.partFiles;
      var entries: seq<PartStatusFile> := [];
      var i := 0;
      while i < |refs|
        invariant 0 <= i <= |refs|
        invariant entries == Reconcile(hash, d, refs[..i])
      {
        var partFile := refs[i];
        var entry: PartStatusFile;
        if partFile.fileName in d.parts {
          var content := d.parts[partFile.fileName];
          if content.Some? {
            var partHash := hash(content.value);
            if partHash == partFile.fileHash {
              entry := PartStatusFile(partFile.fileName, partFile.fileHash, COMPLETE);
            } else {
              entry := PartStatusFile(partFile.fileName, partFile.fileHash, INCOMPLETE);
            }
          } else {
            entry := PartStatusFile(partFile.fileName, partFile.fileHash, INCOMPLETE);
          }
        } else {
          entry := PartStatusFile(partFile.fileName, partFile.fileHash, INCOMPLETE);
        }
        entries := entries + [entry];
        i := i + 1;
      }
      assert refs[..i] == refs;
      var papayaStatusFile := PapayaStatusFile(papayaFile.fileName, papayaFile.fileId, entries);
      Notify(papayaStatusFile);
      statuses := statuses[papayaFile.fileId := papayaStatusFile];
      path := Some(InStore(dirId, papayaFile.fileId + StatusSuffix));
    }

    /** retrievePapayaFileFromFileId: the manifest `<store>/<fileId>/<fileId>.papaya`, if it exists and parses. */
    function RetrievePapayaFileFromFileId(fileId: string): (r: Option<PapayaFile>)
      reads this
      ensures r.Some? <==>
        fileId in dirs && fileId + ManifestSuffix in dirs[fileId].manifests &&
        dirs[fileId].manifests[fileId + ManifestSuffix].Some?
      ensures r.Some? ==> r == dirs[fileId].manifests[fileId + ManifestSuffix]
    {
      if fileId in dirs && fileId + ManifestSuffix in dirs[fileId].manifests
      then dirs[fileId].manifests[fileId + ManifestSuffix]
      else None
    }

    /** retrievePapayaStatusFileFromFile: the saved status of a file, filed under that fileId. */
    function RetrievePapayaStatusFile(fileId: string): (r: Option<PapayaStatusFile>)
      requires Valid()
      reads this
      ensures r.Some? <==> fileId in statuses
      ensures r.Some? ==> r.value == statuses[fileId] && r.value.fileId == fileId
    {
      if fileId in statuses then Some(statuses[fileId]) else None
    }

    /** savePapayaStatusFile: save, then run the status's callback. */
    method SavePapayaStatusFile(s: PapayaStatusFile)
      requires Valid()
      modifies this`statuses, this`events
      ensures Valid()
      ensures statuses == old(statuses)[s.fileId := s]
      ensures events == old(events) + Notification(updateFunctions, newPapayaStatusFileFunction, s)
    {
      statuses := statuses[s.fileId := s];
      Notify(s);
    }

    /** savePartStatusFile: save the part status, then run the file's callback. */
    method SavePartStatusFile(s: PapayaStatusFile, part: PartStatusFile)
      modifies this`savedParts, this`events
      ensures savedParts == old(savedParts) + [part]
      ensures events == old(events) + Notification(updateFunctions, newPapayaStatusFileFunction, s)
    {
      savedParts := savedParts + [part];
      Notify(s);
    }

    /** writePart: create the store directory if needed and write the part file. */
    method WritePart(fileId: string, partFileName: string, content: Bytes)
      modifies this`dirs
      ensures dirs == WithPart(old(dirs), fileId, partFileName, content)
    {
      if fileId !in dirs {
        dirs := dirs[fileId := EmptyDir];
      }
      dirs := dirs[fileId := dirs[fileId].(parts := dirs[fileId].parts[partFileName := Some(content)])];
    }

    /**
      createStoreFromPapayaFile: for a manifest received from a peer, create
      its store holding only the manifest and generate its status, in which
      every part is INCOMPLETE. An existing store is left alone.
     */
    method CreateStoreFromPapayaFile(m: PapayaFile)
      requires Valid()
      modifies this`dirs, this`statuses, this`events
      ensures Valid()
      ensures m.fileId in old(dirs) ==> dirs == old(dirs) && statuses == old(statuses) && events == old(events)
      ensures m.fileId !in old(dirs) ==>
        var s := PapayaStatusFile(m.fileName, m.fileId, Reconcile(hash, EmptyDir, m.partFiles));
        dirs == old(dirs)[m.fileId := Dir(map[m.fileId + ManifestSuffix := Some(m)], map[])] &&
        statuses == old(statuses)[m.fileId := s] &&
        events == old(events) + Notification(updateFunctions, newPapayaStatusFileFunction, s) &&
        forall k :: 0 <= k < |m.partFiles| ==> s.partStatusFiles[k].status == INCOMPLETE
    {
      if m.fileId in dirs {
        return;
      }
      var store := Dir(map[m.fileId + ManifestSuffix := Some(m)], map[]);
      dirs := dirs[m.fileId := store];
      SoleManifestIs(store, m.fileId + ManifestSuffix);
      forall k | 0 <= k < |m.partFiles|
        ensures Reconcile(hash, store, m.partFiles)[k] == Reconcile(hash, EmptyDir, m.partFiles)[k]
      {
      }
      assert Reconcile(hash, store, m.partFiles) == Reconcile(hash, EmptyDir, m.partFiles);
      assert StoredManifest(m.fileId) == Some(m);
      var _ := GenerateStatus(m.fileId);
    }

    /** getCompletedParts: the names of a file's COMPLETE parts, in status order; empty for an unknown file. */
    function GetCompletedParts(fileId: string): (names: seq<string>)
      reads this
      ensures fileId !in statuses ==> names == []
      ensures fileId in statuses ==> names == CompletedNames(statuses[fileId].partStatusFiles)
      ensures fileId in statuses ==>
        var entries := statuses[fileId].partStatusFiles;
        |names| <= |entries| &&
        forall name :: name in names <==>
          exists k :: 0 <= k < |entries| && entries[k].status == COMPLETE && entries[k].fileName == name
    {
      if fileId !in statuses then []
      else
        var entries := statuses[fileId].partStatusFiles;
        CompletedNamesExactly(entries);
        CompletedNames(entries)
    }

    method SetNewPapayaStatusFileFunction(f: CallbackId)
      modifies this`newPapayaStatusFileFunction
      ensures newPapayaStatusFileFunction == Some(f)
    {
      newPapayaStatusFileFunction := Some(f);
    }

    /** addUpdateFunction: register the file's update function, replacing any earlier one. */
    method AddUpdateFunction(fileId: string, f: CallbackId)
      modifies this`updateFunctions
      ensures updateFunctions == old(updateFunctions)[fileId := f]
    {
      updateFunctions := updateFunctions[fileId := f];
    }

    method SetDeletedPapayaStatusFileFunction(f: CallbackId)
      modifies this`deletedPapayaStatusFileFunction
      ensures deletedPapayaStatusFileFunction == Some(f)
    {
      deletedPapayaStatusFileFunction := Some(f);
    }

    /**
      removePapayaFolder: only for an existing store directory, remove the
      saved status, the directory and that file's update function, then run
      the "deleted" callback.
     */
    method RemovePapayaFolder(s: PapayaStatusFile)
      requires Valid()
      modifies this`dirs, this`statuses, this`updateFunctions, this`events
      ensures Valid()
      ensures s.fileId !in old(dirs) ==>
        dirs == old(dirs) && statuses == old(statuses) && updateFunctions == old(updateFunctions) && events == old(events)
      ensures s.fileId in old(dirs) ==>
        dirs == old(dirs) - {s.fileId} &&
        statuses == old(statuses) - {s.fileId} &&
        updateFunctions == old(updateFunctions) - {s.fileId} &&
        events == old(events) + (if deletedPapayaStatusFileFunction.Some? then [Deleted(deletedPapayaStatusFileFunction.value)] else [])
    {
      if s.fileId in dirs {
        statuses := statuses - {s.fileId};
        dirs := dirs - {s.fileId};
        updateFunctions := updateFunctions - {s.fileId};
        if deletedPapayaStatusFileFunction.Some? {
          events := events + [Deleted(deletedPapayaStatusFileFunction.value)];
        }
      }
    }
  }
}
