/**
  PartFileHandler: an incoming PART_FILE message. The header is byte 0 (the
  message type, not inspected here), the 32-byte fileId at bytes 1..32, the
  part name from byte 33 up to the first `#`, and the payload after it. A
  payload whose hash matches the part's recorded hash is written, its
  status entry flipped to COMPLETE, the file joined whenever its status is
  COMPLETE after the flip (an accepted re-delivery to a complete file
  included), the status saved and the next part requested.
 */
module Handlers {
  import opened Wrappers
  import opened Decimal
  import opened PapayaFiles
  import opened Chunking
  import opened Persistence

  /** The byte of '#', which ends the part name. */
  const Delimiter: bv8 := 0x23
  const FileIdStart := 1
  const NameStart := 33

  /** The name scan only ends at a `#` at or after byte 33; without one it runs off the array. */
  predicate HasDelimiter(data: Bytes) {
    exists j :: NameStart <= j < |data| && data[j] == Delimiter
  }

  /** The index of the first `#` at or after `from`. */
  function FirstDelimiter(data: Bytes, from: nat): (j: nat)
    requires from <= |data| && exists j :: from <= j < |data| && data[j] == Delimiter
    ensures from <= j < |data| && data[j] == Delimiter
    ensures forall k :: from <= k < j ==> data[k] != Delimiter
    decreases |data| - from
  {
    if data[from] == Delimiter then from else FirstDelimiter(data, from + 1)
  }

  datatype PartFileHeader = PartFileHeader(fileId: Bytes, partName: Bytes, payload: Bytes)

  /** The fields handle extracts from a PART_FILE message. */
  function ParseHeader(data: Bytes): (h: PartFileHeader)
    requires HasDelimiter(data)
    ensures |h.fileId| == 32 && h.fileId == data[FileIdStart..NameStart]
    ensures Delimiter !in h.partName
    ensures data == data[..FileIdStart] + h.fileId + h.partName + [Delimiter] + h.payload
  {
    var j := FirstDelimiter(data, NameStart);
    var h := PartFileHeader(data[FileIdStart..NameStart], data[NameStart..j], data[j + 1..]);
    assert data == data[..FileIdStart] + data[FileIdStart..NameStart] + data[NameStart..j] + [data[j]] + data[j + 1..];
    h
  }

  /** A message laid out as type, 32-byte fileId, `#`-free name, `#`, payload. */
  function PartFileMessage(messageType: bv8, fileId: Bytes, partName: Bytes, payload: Bytes): Bytes {
    [messageType] + fileId + partName + [Delimiter] + payload
  }

  /** The parse recovers every field of such a message, whatever byte 0 and the fileId hold. */
  lemma ParseHeaderRoundTrip(messageType: bv8, fileId: Bytes, partName: Bytes, payload: Bytes)
    requires |fileId| == 32 && Delimiter !in partName
    ensures HasDelimiter(PartFileMessage(messageType, fileId, partName, payload))
    ensures ParseHeader(PartFileMessage(messageType, fileId, partName, payload)) == PartFileHeader(fileId, partName, payload)
  {
    var data := PartFileMessage(messageType, fileId, partName, payload);
    var j := NameStart + |partName|;
    assert data[j] == Delimiter;
    assert forall k :: NameStart <= k < j ==> data[k] == partName[k - NameStart];
    assert FirstDelimiter(data, NameStart) == j;
    assert data[FileIdStart..NameStart] == fileId;
    assert data[NameStart..j] == partName;
    assert data[j + 1..] == payload;
  }

  /**
    The do-while scan of handle: starting at byte 33, collect bytes until a
    `#`, then step past it. Returns the name and the payload's first index.
   */
  method ReadPartName(data: Bytes) returns (partFileName: Bytes, i: nat)
    requires HasDelimiter(data)
    ensures partFileName == ParseHeader(data).partName
    ensures NameStart < i <= |data| && data[i - 1] == Delimiter
    ensures data[i..] == ParseHeader(data).payload
  {
    ghost var j := FirstDelimiter(data, NameStart);
    partFileName := [];
    i := NameStart;
    var charAtIndex := data[i];
    if charAtIndex != Delimiter {
      partFileName := partFileName + [data[i]];
    }
    i := i + 1;
    while charAtIndex != Delimiter
      invariant NameStart < i <= j + 1
      invariant charAtIndex == data[i - 1]
      invariant charAtIndex == Delimiter <==> i == j + 1
      invariant partFileName == data[NameStart..if charAtIndex == Delimiter then i - 1 else i]
      decreases j + 1 - i
    {
      charAtIndex := data[i];
      if charAtIndex != Delimiter {
        partFileName := partFileName + [data[i]];
      }
      i := i + 1;
    }
  }

  /** ByteArrayOutputStream.toString, one character per byte. */
  function Latin1(b: Bytes): (s: string)
    ensures |s| == |b|
  {
    seq(|b|, k requires 0 <= k < |b| => (b[k] as int) as char)
  }

  /** stream().filter(name matches).findFirst(): the first entry with that name. */
  function FirstPartNamed(entries: seq<PartStatusFile>, name: string): (r: Option<nat>)
    ensures r.Some? ==> r.value < |entries| && entries[r.value].fileName == name
    ensures r.Some? ==> forall k :: 0 <= k < r.value ==> entries[k].fileName != name
    ensures r.None? ==> forall k :: 0 <= k < |entries| ==> entries[k].fileName != name
  {
    if entries == [] then None
    else if entries[0].fileName == name then Some(0)
    else match FirstPartNamed(entries[1..], name)
      case None => None
      case Some(k) => Some(k + 1)
  }

  /** partStatusFile.setStatus(COMPLETE) on entry k of the status. */
  function MarkComplete(s: PapayaStatusFile, k: nat): (t: PapayaStatusFile)
    requires k < |s.partStatusFiles|
    ensures |t.partStatusFiles| == |s.partStatusFiles| && t.partStatusFiles[k].status == COMPLETE
    ensures t.fileId == s.fileId
  {
    s.(partStatusFiles := s.partStatusFiles[k := s.partStatusFiles[k].(status := COMPLETE)])
  }

  /**
    Flipping entry k completes the file exactly when every other entry was
    already COMPLETE; the part's name is then reported complete, and the
    other entries, the name, hash and file identity are kept.
   */
  lemma MarkCompleteEffect(s: PapayaStatusFile, k: nat)
    requires k < |s.partStatusFiles|
    ensures var t := MarkComplete(s, k);
      |t.partStatusFiles| == |s.partStatusFiles| && t.fileId == s.fileId && t.fileName == s.fileName &&
      t.partStatusFiles[k] == PartStatusFile(s.partStatusFiles[k].fileName, s.partStatusFiles[k].fileHash, COMPLETE) &&
      (forall j :: 0 <= j < |s.partStatusFiles| && j != k ==> t.partStatusFiles[j] == s.partStatusFiles[j]) &&
      (t.Status() == COMPLETE <==> forall j :: 0 <= j < |s.partStatusFiles| && j != k ==> s.partStatusFiles[j].status == COMPLETE) &&
      s.partStatusFiles[k].fileName in CompletedNames(t.partStatusFiles)
  {
    var t := MarkComplete(s, k);
    CompletedNamesMembers(t.partStatusFiles, s.partStatusFiles[k].fileName);
    if forall j :: 0 <= j < |s.partStatusFiles| && j != k ==> s.partStatusFiles[j].status == COMPLETE {
      assert forall j :: 0 <= j < |t.partStatusFiles| ==> t.partStatusFiles[j].status == COMPLETE;
    }
  }

  /** A second delivery of an already COMPLETE part changes nothing. */
  lemma MarkCompleteIdempotent(s: PapayaStatusFile, k: nat)
    requires k < |s.partStatusFiles| && s.partStatusFiles[k].status == COMPLETE
    ensures MarkComplete(s, k) == s
  {
    assert s.partStatusFiles[k := s.partStatusFiles[k].(status := COMPLETE)] == s.partStatusFiles;
  }

  /** Whether handle accepts the message: known file, named part found, payload hash matches. */
  predicate Accepts(hash: Bytes -> string, statuses: map<string, PapayaStatusFile>, h: PartFileHeader) {
    var fileId := Latin1(h.fileId);
    fileId in statuses &&
    var found := FirstPartNamed(statuses[fileId].partStatusFiles, Latin1(h.partName));
    found.Some? && hash(h.payload) == statuses[fileId].partStatusFiles[found.value].fileHash
  }

  /** The status handle saves when it accepts a message. */
  function Flipped(statuses: map<string, PapayaStatusFile>, h: PartFileHeader): PapayaStatusFile
    requires Latin1(h.fileId) in statuses
    requires FirstPartNamed(statuses[Latin1(h.fileId)].partStatusFiles, Latin1(h.partName)).Some?
  {
    var s := statuses[Latin1(h.fileId)];
    MarkComplete(s, FirstPartNamed(s.partStatusFiles, Latin1(h.partName)).value)
  }

  /** The line handle returns; `source` is the peer's "address:port". */
  function LogLine(source: string, h: PartFileHeader): string {
    "From: " + source + " FileId: " + Latin1(h.fileId) + " : PartHash: " + Latin1(h.partName) +
    " Content: " + NatToString(|h.payload|)
  }

  /** The returned line ends with the payload's byte count, in decimal. */
  lemma LogLineReportsPayloadSize(source: string, h: PartFileHeader)
    ensures var line := LogLine(source, h);
      var count := NatToString(|h.payload|);
      |line| > |count| && line[|line| - |count|..] == count && ParseNat(line[|line| - |count|..]) == |h.payload|
  {
    ParseNatToString(|h.payload|);
  }

  class PartFileHandler {
    const fileManager: FileManager
    /** The statuses handed to askForPartFileSender.send, in order. */
    ghost var sent: seq<PapayaStatusFile>

    constructor (fileManager: FileManager)
      ensures this.fileManager == fileManager && sent == []
    {
      this.fileManager := fileManager;
      sent := [];
    }

    /**
      handle: parse the header; if the file has a status, a part of that
      name exists and the payload hashes to its recorded hash, write the
      part, flip that entry to COMPLETE, join the file whenever its status
      is COMPLETE after the flip (an accepted re-delivery to a complete
      file included), save the status and ask for the next part. Otherwise
      nothing is written, saved or sent.
     */
    method Handle(source: string, receivedData: Bytes) returns (message: string)
      requires HasDelimiter(receivedData)
      requires fileManager.Valid()
      modifies this`sent, fileManager`dirs, fileManager`statuses, fileManager`events
      ensures fileManager.Valid()
      ensures message == LogLine(source, ParseHeader(receivedData))
      ensures var h := ParseHeader(receivedData);
        !Accepts(fileManager.hash, old(fileManager.statuses), h) ==>
          fileManager.dirs == old(fileManager.dirs) && fileManager.statuses == old(fileManager.statuses) &&
          fileManager.events == old(fileManager.events) && sent == old(sent)
      ensures var h := ParseHeader(receivedData);
        Accepts(fileManager.hash, old(fileManager.statuses), h) ==>
          var fileId := Latin1(h.fileId);
          var s := Flipped(old(fileManager.statuses), h);
          var written := WithPart(old(fileManager.dirs), fileId, Latin1(h.partName), h.payload);
          fileManager.dirs == (if s.Status() == COMPLETE then JoinStoreEffect(fileManager.hash, written, fileId).1 else written) &&
          fileManager.statuses == old(fileManager.statuses)[fileId := s] &&
          fileManager.events == old(fileManager.events) +
            Notification(fileManager.updateFunctions, fileManager.newPapayaStatusFileFunction, s) &&
          sent == old(sent) + [s]
    {
      ghost var h := ParseHeader(receivedData);
      var fileIdBytes := receivedData[FileIdStart..NameStart];
      var partFileNameBytes, i := ReadPartName(receivedData);
      var payload := receivedData[i..];
      var fileId := Latin1(fileIdBytes);
      var partFileName := Latin1(partFileNameBytes);
      var maybePapayaStatusFile := fileManager.RetrievePapayaStatusFile(fileId);
      if maybePapayaStatusFile.Some? {
        var statusFile := maybePapayaStatusFile.value;
        var found := FirstPartNamed(statusFile.partStatusFiles, partFileName);
        if found.Some? {
          var k := found.value;
          var partHash := fileManager.hash(payload);
          if partHash == statusFile.partStatusFiles[k].fileHash {
            fileManager.WritePart(fileId, partFileName, payload);
            statusFile := MarkComplete(statusFile, k);
            if statusFile.Status() == COMPLETE {
              var _ := fileManager.JoinStore(fileId);
            }
            fileManager.SavePapayaStatusFile(statusFile);
            sent := sent + [statusFile];
          }
        }
      }
      message := "From: " + source + " FileId: " + fileId + " : PartHash: " + partFileName +
                 " Content: " + NatToString(|payload|);
    }
  }
}
