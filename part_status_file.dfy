/**
  The per-part status record of the older client tree, a mutable object:
  setters assign one field and return the object itself, and addPeer
  inserts into its set of peer statuses.
 */
module LegacyStatusFiles {
  import opened Wrappers
  import PapayaFiles

  /**
    A HashSet of peer statuses, as an object: the record stores and hands out
    a reference to it, so every holder of the same set sees an insertion.
   */
  class PeerSet<P(==)> {
    var contents: set<P>

    constructor ()
      ensures contents == {}
    {
      contents := {};
    }
  }

  /**
    P stands for PartPeerStatusFile, whose definition is not part of this
    model; its equality is the set's. A field that Java leaves null is None,
    or null for the peer set.
   */
  class PartStatusFile<P(==)> {
    var fileName: Option<string>
    var fileHash: Option<string>
    var status: Option<PapayaFiles.PapayaStatus>
    var partPeerStatusFiles: PeerSet?<P>

    /** The three-argument constructor: the fields given and a new, empty peer set. */
    constructor (fileName: string, fileHash: string, status: PapayaFiles.PapayaStatus)
      ensures this.fileName == Some(fileName) && this.fileHash == Some(fileHash) && this.status == Some(status)
      ensures partPeerStatusFiles != null && fresh(partPeerStatusFiles) && partPeerStatusFiles.contents == {}
    {
      this.fileName := Some(fileName);
      this.fileHash := Some(fileHash);
      this.status := Some(status);
      partPeerStatusFiles := new PeerSet();
    }

    /** The no-argument constructor (for deserialisation): every field null, the peer set included. */
    constructor Empty()
      ensures fileName == None && fileHash == None && status == None && partPeerStatusFiles == null
    {
      fileName, fileHash, status, partPeerStatusFiles := None, None, None, null;
    }

    method SetFileHash(fileHash: string) returns (self: PartStatusFile<P>)
      modifies this`fileHash
      ensures this.fileHash == Some(fileHash) && self == this
    {
      this.fileHash := Some(fileHash);
      self := this;
    }

    method SetFileName(fileName: string) returns (self: PartStatusFile<P>)
      modifies this`fileName
      ensures this.fileName == Some(fileName) && self == this
    {
      this.fileName := Some(fileName);
      self := this;
    }

    method SetStatus(status: PapayaFiles.PapayaStatus) returns (self: PartStatusFile<P>)
      modifies this`status
      ensures this.status == Some(status) && self == this
    {
      this.status := Some(status);
      self := this;
    }

    /** getPartPeerStatusFiles: the live set itself, not a copy. */
    method GetPartPeerStatusFiles() returns (peers: PeerSet?<P>)
      ensures peers == partPeerStatusFiles
    {
      peers := partPeerStatusFiles;
    }

    /** setPartPeerStatusFiles: keep the caller's set itself, which caller and record then share. */
    method SetPartPeerStatusFiles(peers: PeerSet?<P>) returns (self: PartStatusFile<P>)
      modifies this`partPeerStatusFiles
      ensures partPeerStatusFiles == peers && self == this
    {
      partPeerStatusFiles := peers;
      self := this;
    }

    /**
      addPeer: insertion into the shared set, so every holder of that set sees
      the peer; the set must have been assigned (Java would throw on null).
     */
    method AddPeer(peer: P)
      requires partPeerStatusFiles != null
      modifies partPeerStatusFiles
      ensures partPeerStatusFiles.contents == old(partPeerStatusFiles.contents) + {peer}
      ensures peer in old(partPeerStatusFiles.contents) ==> partPeerStatusFiles.contents == old(partPeerStatusFiles.contents)
    {
      if peer in partPeerStatusFiles.contents {
        assert partPeerStatusFiles.contents + {peer} == partPeerStatusFiles.contents;
      }
      partPeerStatusFiles.contents := partPeerStatusFiles.contents + {peer};
    }
  }

  /**
    Two records given the same set share it: a peer added through one is in
    the set the other hands out, and the other's own fields are untouched.
   */
  method SharedPeerSet<P(==)>(a: PartStatusFile<P>, b: PartStatusFile<P>, peers: PeerSet<P>, peer: P)
    modifies a, b, peers
    ensures a.partPeerStatusFiles == b.partPeerStatusFiles == peers
    ensures peers.contents == old(peers.contents) + {peer}
    ensures b.fileName == old(b.fileName) && b.fileHash == old(b.fileHash) && b.status == old(b.status)
  {
    var _ := a.SetPartPeerStatusFiles(peers);
    var _ := b.SetPartPeerStatusFiles(peers);
    a.AddPeer(peer);
    var seen := b.GetPartPeerStatusFiles();
    assert seen == peers && peer in seen.contents;
  }
}
