/**
  The client's persisted value types: the manifest (PapayaFile with its
  PartFile entries), the transfer status (PapayaStatusFile with its
  PartStatusFile entries), and the on-disk layout of one store directory
  `<store>/<fileId>/`.
 */
module PapayaFiles {
  import opened Wrappers

  type Bytes = seq<bv8>

  datatype PapayaStatus = COMPLETE | INCOMPLETE

  /** One manifest entry: a part's name and the hash of its exact bytes. */
  datatype PartFile = PartFile(fileName: string, fileHash: string)

  /** The manifest `<fileId>.papaya`. */
  datatype PapayaFile = PapayaFile(fileId: string, fileName: string, partFiles: seq<PartFile>)

  /** One status entry: the manifest entry plus its completion state. */
  datatype PartStatusFile = PartStatusFile(fileName: string, fileHash: string, status: PapayaStatus)

  /** The per-file transfer status kept by the status service. */
  datatype PapayaStatusFile = PapayaStatusFile(fileName: string, fileId: string, partStatusFiles: seq<PartStatusFile>)
  {
    /** The aggregate state: COMPLETE exactly when every part is COMPLETE. */
    function Status(): (s: PapayaStatus)
      ensures s == COMPLETE <==> forall k :: 0 <= k < |partStatusFiles| ==> partStatusFiles[k].status == COMPLETE
    {
      if forall k :: 0 <= k < |partStatusFiles| ==> partStatusFiles[k].status == COMPLETE then COMPLETE else INCOMPLETE
    }
  }

  /**
    One store directory. `manifests` holds the files the glob `*.papaya`
    matches, already parsed (None: the JSON could not be read); `parts`
    holds every other file (None: it exists but cannot be read). A name in
    neither map does not exist.
   */
  datatype Dir = Dir(manifests: map<string, Option<PapayaFile>>, parts: map<string, Option<Bytes>>)

  const EmptyDir := Dir(map[], map[])

  /** Files.readAllBytes: the bytes of an existing, readable part file. */
  function ReadPart(d: Dir, name: string): (r: Option<Bytes>)
    ensures r.Some? <==> name in d.parts && d.parts[name].Some?
  {
    if name in d.parts then d.parts[name] else None
  }

  /** The paths the operations return. */
  datatype Location = StoreDir(fileId: string) | InStore(dirId: string, name: string)

  const ManifestSuffix := ".papaya"
  const StatusSuffix := ".papayastatus"
}
