/**
  The pure specification of the chunk store engine: how split cuts the
  input into parts and names them, what it writes, how join and status
  generation judge a store directory, and which part names are complete.
  FileManager's methods are proved against these functions.
 */
module Chunking {
  import opened Wrappers
  import opened Decimal
  import opened PapayaFiles

  /** The fixed part size of split. */
  const PartSize: nat := 100_000_000

  function Min(a: int, b: int): int {
    if a <= b then a else b
  }

  /**
    The parts split's inner loop `for (i = from; i < bytes.length; i += partSize)`
    cuts from one read buffer: `bytes[i .. min(bytes.length, i + partSize)]`.
   */
  function CutFrom(bytes: Bytes, from: nat): seq<Bytes>
    decreases |bytes| - from
  {
    if from >= |bytes| then []
    else [bytes[from..Min(|bytes|, from + PartSize)]] + CutFrom(bytes, from + PartSize)
  }

  /** The bytes of a sequence of buffers written one after another. */
  function Concat(ps: seq<Bytes>): Bytes {
    if ps == [] then [] else ps[0] + Concat(ps[1..])
  }

  lemma {:induction false} ConcatAppend(a: seq<Bytes>, b: seq<Bytes>)
    ensures Concat(a + b) == Concat(a) + Concat(b)
  {
    if a == [] {
      assert a + b == b;
    } else {
      assert (a + b)[1..] == a[1..] + b;
      ConcatAppend(a[1..], b);
    }
  }

  /** Every part is non-empty and at most PartSize bytes long. */
  predicate WellSized(ps: seq<Bytes>) {
    forall k :: 0 <= k < |ps| ==> 0 < |ps[k]| <= PartSize
  }

  /**
    One read buffer is cut into ceil(n / PartSize) non-empty parts of at
    most PartSize bytes, all but the last exactly PartSize, and the parts
    written back to back give the buffer again.
   */
  lemma {:induction false} CutFromCorrect(bytes: Bytes, from: nat)
    requires from <= |bytes|
    ensures WellSized(CutFrom(bytes, from))
    ensures Concat(CutFrom(bytes, from)) == bytes[from..]
    ensures |CutFrom(bytes, from)| == (|bytes| - from + PartSize - 1) / PartSize
    ensures forall k :: 0 <= k < |CutFrom(bytes, from)| - 1 ==> |CutFrom(bytes, from)[k]| == PartSize
    decreases |bytes| - from
  {
    if from < |bytes| {
      var next := from + PartSize;
      var ps := CutFrom(bytes, from);
      if next <= |bytes| {
        CutFromCorrect(bytes, next);
        assert ps[1..] == CutFrom(bytes, next);
        assert bytes[from..] == bytes[from..next] + bytes[next..];
      } else {
        assert CutFrom(bytes, next) == [];
        assert Min(|bytes|, next) == |bytes| && bytes[from..|bytes|] == bytes[from..];
        assert ps == [bytes[from..]];
      }
    }
  }

  /** All parts split produces from the given buffers, numbered across buffers. */
  function Chunks(buffers: seq<Bytes>): seq<Bytes> {
    if buffers == [] then []
    else Chunks(buffers[..|buffers| - 1]) + CutFrom(buffers[|buffers| - 1], 0)
  }

  /** Split's parts are well sized and together are exactly the bytes read. */
  lemma {:induction false} ChunksCorrect(buffers: seq<Bytes>)
    ensures WellSized(Chunks(buffers))
    ensures Concat(Chunks(buffers)) == Concat(buffers)
  {
    if buffers != [] {
      var init, last := buffers[..|buffers| - 1], buffers[|buffers| - 1];
      ChunksCorrect(init);
      CutFromCorrect(last, 0);
      ConcatAppend(Chunks(init), CutFrom(last, 0));
      assert buffers == init + [last];
      ConcatAppend(init, [last]);
      assert Concat([last]) == last;
    }
  }

  /** A single read of 250,000,000 bytes yields parts of 100, 100 and 50 million bytes. */
  lemma SplitScenario(b: Bytes)
    requires |b| == 250_000_000
    ensures Chunks([b]) == [b[..100_000_000], b[100_000_000..200_000_000], b[200_000_000..]]
  {
    assert [b][..0] == [];
    assert CutFrom(b, 300_000_000) == [];
    assert b[200_000_000..250_000_000] == b[200_000_000..];
    assert CutFrom(b, 200_000_000) == [b[200_000_000..]];
    assert CutFrom(b, 100_000_000) == [b[100_000_000..200_000_000], b[200_000_000..]];
  }

  /** The manifest entries split records: part k is named String.valueOf(k). */
  function PartRefs(hash: Bytes -> string, chunks: seq<Bytes>): seq<PartFile> {
    seq(|chunks|, k requires 0 <= k < |chunks| => PartFile(NatToString(k), hash(chunks[k])))
  }

  /** The status entries split records: the same names and hashes, all COMPLETE. */
  function CompleteEntries(hash: Bytes -> string, chunks: seq<Bytes>): seq<PartStatusFile> {
    seq(|chunks|, k requires 0 <= k < |chunks| => PartStatusFile(NatToString(k), hash(chunks[k]), COMPLETE))
  }

  /** Cutting one more part extends the manifest entries by that part's entry. */
  lemma PartRefsSnoc(hash: Bytes -> string, chunks: seq<Bytes>, part: Bytes)
    ensures PartRefs(hash, chunks + [part]) == PartRefs(hash, chunks) + [PartFile(NatToString(|chunks|), hash(part))]
  {
    var longer := chunks + [part];
    var a, b := PartRefs(hash, longer), PartRefs(hash, chunks) + [PartFile(NatToString(|chunks|), hash(part))];
    assert |a| == |b|;
    forall k | 0 <= k < |a|
      ensures a[k] == b[k]
    {
      assert longer[k] == if k < |chunks| then chunks[k] else part;
    }
  }

  lemma CompleteEntriesSnoc(hash: Bytes -> string, chunks: seq<Bytes>, part: Bytes)
    ensures CompleteEntries(hash, chunks + [part]) == CompleteEntries(hash, chunks) + [PartStatusFile(NatToString(|chunks|), hash(part), COMPLETE)]
  {
    var longer := chunks + [part];
    var prefix := CompleteEntries(hash, chunks);
    var a, b := CompleteEntries(hash, longer), prefix + [PartStatusFile(NatToString(|chunks|), hash(part), COMPLETE)];
    assert |a| == |b|;
    forall k | 0 <= k < |a|
      ensures a[k] == b[k]
    {
      assert a[k] == PartStatusFile(NatToString(k), hash(longer[k]), COMPLETE);
      if k < |chunks| {
        assert longer[k] == chunks[k];
        assert b[k] == prefix[k] == PartStatusFile(NatToString(k), hash(chunks[k]), COMPLETE);
      } else {
        assert longer[k] == part;
        assert b[k] == PartStatusFile(NatToString(|chunks|), hash(part), COMPLETE);
      }
    }
  }

  /** The part files split writes: Files.write(store/k, part k), in order. */
  function StoreChunks(d: Dir, chunks: seq<Bytes>): (r: Dir)
    ensures r.manifests == d.manifests
  {
    if chunks == [] then d
    else
      var prev := StoreChunks(d, chunks[..|chunks| - 1]);
      prev.(parts := prev.parts[NatToString(|chunks| - 1) := Some(chunks[|chunks| - 1])])
  }

  /** After split's writes, part k holds exactly the k-th chunk. */
  lemma {:induction false} StoreChunksRead(d: Dir, chunks: seq<Bytes>, k: nat)
    requires k < |chunks|
    ensures ReadPart(StoreChunks(d, chunks), NatToString(k)) == Some(chunks[k])
  {
    var n := |chunks| - 1;
    if k < n {
      NatToStringInjective(k, n);
      StoreChunksRead(d, chunks[..n], k);
    }
  }

  lemma StoreChunksSnoc(d: Dir, chunks: seq<Bytes>, part: Bytes)
    ensures var prev := StoreChunks(d, chunks);
      StoreChunks(d, chunks + [part]) == prev.(parts := prev.parts[NatToString(|chunks|) := Some(part)])
  {
    assert (chunks + [part])[..|chunks|] == chunks;
  }

  /** Split's writes leave every file that is not one of its part names alone. */
  lemma {:induction false} StoreChunksOthers(d: Dir, chunks: seq<Bytes>, name: string)
    requires forall k :: 0 <= k < |chunks| ==> NatToString(k) != name
    ensures ReadPart(StoreChunks(d, chunks), name) == ReadPart(d, name)
  {
    if chunks != [] {
      StoreChunksOthers(d, chunks[..|chunks| - 1], name);
    }
  }

  /** The manifest and the status split records agree entry by entry. */
  lemma SplitManifestMatchesStatus(hash: Bytes -> string, chunks: seq<Bytes>, k: nat)
    requires k < |chunks|
    ensures |PartRefs(hash, chunks)| == |CompleteEntries(hash, chunks)| == |chunks|
    ensures PartRefs(hash, chunks)[k].fileName == CompleteEntries(hash, chunks)[k].fileName == NatToString(k)
    ensures PartRefs(hash, chunks)[k].fileHash == CompleteEntries(hash, chunks)[k].fileHash
    ensures CompleteEntries(hash, chunks)[k].status == COMPLETE
    ensures ParseNat(PartRefs(hash, chunks)[k].fileName) == k
  {
    ParseNatToString(k);
  }

  /** A part verifies when it exists, can be read, and hashes to the manifest hash. */
  predicate Verified(hash: Bytes -> string, d: Dir, ref: PartFile) {
    ReadPart(d, ref.fileName).Some? && hash(ReadPart(d, ref.fileName).value) == ref.fileHash
  }

  predicate AllVerified(hash: Bytes -> string, d: Dir, refs: seq<PartFile>) {
    forall k :: 0 <= k < |refs| ==> Verified(hash, d, refs[k])
  }

  /** The bytes of the manifest's parts, in manifest order. */
  function PartContents(hash: Bytes -> string, d: Dir, refs: seq<PartFile>): seq<Bytes>
    requires AllVerified(hash, d, refs)
  {
    seq(|refs|, k requires 0 <= k < |refs| && AllVerified(hash, d, refs) => ReadPart(d, refs[k].fileName).value)
  }

  /**
    The output of join's loop: either every part verified and the output
    file holds them all, or the loop stopped at a part that did not, after
    writing the parts before it.
   */
  datatype JoinOutcome = Joined(bytes: Bytes) | Rejected(written: Bytes)

  function JoinParts(hash: Bytes -> string, d: Dir, refs: seq<PartFile>): JoinOutcome {
    if refs == [] then Joined([])
    else
      match JoinParts(hash, d, refs[..|refs| - 1])
      case Rejected(w) => Rejected(w)
      case Joined(w) =>
        var ref := refs[|refs| - 1];
        if Verified(hash, d, ref) then Joined(w + ReadPart(d, ref.fileName).value) else Rejected(w)
  }

  /**
    Join succeeds exactly when every part verifies, and then yields the parts
    concatenated in manifest order.
   */
  lemma {:induction false} JoinPartsCorrect(hash: Bytes -> string, d: Dir, refs: seq<PartFile>)
    ensures JoinParts(hash, d, refs).Joined? <==> AllVerified(hash, d, refs)
    ensures AllVerified(hash, d, refs) ==> JoinParts(hash, d, refs).bytes == Concat(PartContents(hash, d, refs))
  {
    if refs != [] {
      var n := |refs| - 1;
      var init := refs[..n];
      JoinPartsCorrect(hash, d, init);
      if AllVerified(hash, d, refs) {
        assert AllVerified(hash, d, init);
        var cs := PartContents(hash, d, refs);
        assert cs == PartContents(hash, d, init) + [cs[n]];
        ConcatAppend(PartContents(hash, d, init), [cs[n]]);
        assert Concat([cs[n]]) == cs[n];
      } else if AllVerified(hash, d, init) {
        assert !Verified(hash, d, refs[n]);
      } else {
        var k :| 0 <= k < n && !Verified(hash, d, init[k]);
        assert !Verified(hash, d, refs[k]);
      }
    }
  }

  /** Join only looks at the files the manifest names: two directories that agree on those join alike. */
  lemma {:induction false} JoinPartsSameParts(hash: Bytes -> string, d: Dir, e: Dir, refs: seq<PartFile>)
    requires forall k :: 0 <= k < |refs| ==> ReadPart(d, refs[k].fileName) == ReadPart(e, refs[k].fileName)
    ensures JoinParts(hash, d, refs) == JoinParts(hash, e, refs)
  {
    if refs != [] {
      var init := refs[..|refs| - 1];
      assert forall k :: 0 <= k < |init| ==> init[k] == refs[k];
      JoinPartsSameParts(hash, d, e, init);
    }
  }

  /** Once join has stopped at a bad part, the later parts change nothing. */
  lemma {:induction false} JoinPartsRejectedExtends(hash: Bytes -> string, d: Dir, refs: seq<PartFile>, i: nat, w: Bytes)
    requires i <= |refs| && JoinParts(hash, d, refs[..i]) == Rejected(w)
    ensures JoinParts(hash, d, refs) == Rejected(w)
    decreases |refs| - i
  {
    if i < |refs| {
      assert refs[..i + 1][..i] == refs[..i];
      JoinPartsRejectedExtends(hash, d, refs, i + 1, w);
    } else {
      assert refs[..i] == refs;
    }
  }

  /**
    Join fails fast: when part `bad` is the first that does not verify, the
    output holds exactly the parts before it.
   */
  lemma {:induction false} JoinStopsAtFirstMismatch(hash: Bytes -> string, d: Dir, refs: seq<PartFile>, bad: nat)
    requires bad < |refs| && !Verified(hash, d, refs[bad])
    requires AllVerified(hash, d, refs[..bad])
    ensures JoinParts(hash, d, refs) == Rejected(Concat(PartContents(hash, d, refs[..bad])))
    decreases |refs|
  {
    var n := |refs| - 1;
    if bad == n {
      assert refs[..n] == refs[..bad];
      JoinPartsCorrect(hash, d, refs[..bad]);
    } else {
      assert refs[..n][..bad] == refs[..bad];
      JoinStopsAtFirstMismatch(hash, d, refs[..n], bad);
    }
  }

  /** The status generateStatus builds: one entry per manifest part, in order. */
  function Reconcile(hash: Bytes -> string, d: Dir, refs: seq<PartFile>): seq<PartStatusFile> {
    seq(|refs|, k requires 0 <= k < |refs| =>
      PartStatusFile(refs[k].fileName, refs[k].fileHash, if Verified(hash, d, refs[k]) then COMPLETE else INCOMPLETE))
  }

  /**
    Reconciliation and the join loop judge a directory alike: the generated
    status is COMPLETE exactly when the join loop over the directory as it
    stands succeeds (before joinStore opens, and so empties, its output).
   */
  lemma ReconcileCompleteIffJoins(hash: Bytes -> string, d: Dir, m: PapayaFile)
    ensures PapayaStatusFile(m.fileName, m.fileId, Reconcile(hash, d, m.partFiles)).Status() == COMPLETE
        <==> JoinParts(hash, d, m.partFiles).Joined?
  {
    JoinPartsCorrect(hash, d, m.partFiles);
    var es := Reconcile(hash, d, m.partFiles);
    if AllVerified(hash, d, m.partFiles) {
      assert forall k :: 0 <= k < |es| ==> es[k].status == COMPLETE;
    } else {
      var k :| 0 <= k < |m.partFiles| && !Verified(hash, d, m.partFiles[k]);
      assert es[k].status == INCOMPLETE;
    }
  }

  /** Reconciling a freshly split store gives back exactly the status split recorded. */
  lemma SplitStoreReconciles(hash: Bytes -> string, d: Dir, chunks: seq<Bytes>)
    ensures Reconcile(hash, StoreChunks(d, chunks), PartRefs(hash, chunks)) == CompleteEntries(hash, chunks)
  {
    forall k | 0 <= k < |chunks|
      ensures Verified(hash, StoreChunks(d, chunks), PartRefs(hash, chunks)[k])
    {
      StoreChunksRead(d, chunks, k);
    }
  }

  /**
    Corrupting one part of a split store (its bytes no longer hash to the
    recorded hash) makes exactly that entry INCOMPLETE.
   */
  lemma CorruptPartReconciles(hash: Bytes -> string, d: Dir, chunks: seq<Bytes>, j: nat, bad: Bytes)
    requires j < |chunks| && hash(bad) != hash(chunks[j])
    ensures var es := Reconcile(hash, StoreChunks(d, chunks[j := bad]), PartRefs(hash, chunks));
      |es| == |chunks| &&
      es[j].status == INCOMPLETE &&
      forall k :: 0 <= k < |chunks| && k != j ==> es[k].status == COMPLETE
  {
    var corrupted := chunks[j := bad];
    forall k | 0 <= k < |chunks|
      ensures ReadPart(StoreChunks(d, corrupted), NatToString(k)) == Some(corrupted[k])
    {
      StoreChunksRead(d, corrupted, k);
    }
  }

  /** A store holding no part files reconciles to every entry INCOMPLETE. */
  lemma ReconcileWithoutParts(hash: Bytes -> string, d: Dir, refs: seq<PartFile>, k: nat)
    requires d.parts == map[] && k < |refs|
    ensures Reconcile(hash, d, refs)[k] == PartStatusFile(refs[k].fileName, refs[k].fileHash, INCOMPLETE)
  {
  }

  /** Split followed by join reproduces the bytes read, part for part. */
  lemma SplitJoinRoundTrip(hash: Bytes -> string, d: Dir, buffers: seq<Bytes>)
    ensures JoinParts(hash, StoreChunks(d, Chunks(buffers)), PartRefs(hash, Chunks(buffers))) == Joined(Concat(buffers))
  {
    var chunks := Chunks(buffers);
    var store := StoreChunks(d, chunks);
    var refs := PartRefs(hash, chunks);
    forall k | 0 <= k < |chunks|
      ensures ReadPart(store, NatToString(k)) == Some(chunks[k])
    {
      StoreChunksRead(d, chunks, k);
    }
    assert AllVerified(hash, store, refs);
    JoinPartsCorrect(hash, store, refs);
    assert PartContents(hash, store, refs) == chunks;
    ChunksCorrect(buffers);
  }

  /** getCompletedParts' stream: the names of the COMPLETE entries, in status order. */
  function CompletedNames(entries: seq<PartStatusFile>): seq<string> {
    if entries == [] then []
    else (if entries[0].status == COMPLETE then [entries[0].fileName] else []) + CompletedNames(entries[1..])
  }

  /** A name is listed exactly when some COMPLETE entry carries it. */
  lemma {:induction false} CompletedNamesMembers(entries: seq<PartStatusFile>, name: string)
    ensures name in CompletedNames(entries) <==>
      exists k :: 0 <= k < |entries| && entries[k].status == COMPLETE && entries[k].fileName == name
  {
    if entries != [] {
      CompletedNamesMembers(entries[1..], name);
      if name in CompletedNames(entries[1..]) {
        var k :| 0 <= k < |entries[1..]| && entries[1..][k].status == COMPLETE && entries[1..][k].fileName == name;
        assert entries[k + 1] == entries[1..][k];
      }
      if exists k :: 0 <= k < |entries| && entries[k].status == COMPLETE && entries[k].fileName == name {
        var k :| 0 <= k < |entries| && entries[k].status == COMPLETE && entries[k].fileName == name;
        if k > 0 {
          assert entries[1..][k - 1] == entries[k];
        }
      }
    }
  }

  lemma CompletedNamesExactly(entries: seq<PartStatusFile>)
    ensures |CompletedNames(entries)| <= |entries|
    ensures forall name :: name in CompletedNames(entries) <==>
      exists k :: 0 <= k < |entries| && entries[k].status == COMPLETE && entries[k].fileName == name
  {
    CompletedNamesLength(entries);
    forall name {
      CompletedNamesMembers(entries, name);
    }
  }

  lemma {:induction false} CompletedNamesLength(entries: seq<PartStatusFile>)
    ensures |CompletedNames(entries)| <= |entries|
  {
    if entries != [] {
      CompletedNamesLength(entries[1..]);
    }
  }

  /** The filter keeps status order: listing a concatenation lists each half in turn. */
  lemma {:induction false} CompletedNamesAppend(a: seq<PartStatusFile>, b: seq<PartStatusFile>)
    ensures CompletedNames(a + b) == CompletedNames(a) + CompletedNames(b)
  {
    if a == [] {
      assert a + b == b;
    } else {
      assert (a + b)[1..] == a[1..] + b;
      CompletedNamesAppend(a[1..], b);
    }
  }

  /** When every entry is COMPLETE the list is every name, in status order. */
  lemma {:induction false} CompletedNamesAllComplete(entries: seq<PartStatusFile>)
    requires forall k :: 0 <= k < |entries| ==> entries[k].status == COMPLETE
    ensures CompletedNames(entries) == seq(|entries|, k requires 0 <= k < |entries| => entries[k].fileName)
  {
    if entries != [] {
      CompletedNamesAllComplete(entries[1..]);
    }
  }

  /** After split, every part name "0" .. "n-1" is reported complete, in order. */
  lemma SplitPartsAllCompleted(hash: Bytes -> string, chunks: seq<Bytes>)
    ensures CompletedNames(CompleteEntries(hash, chunks)) == seq(|chunks|, k requires 0 <= k < |chunks| => NatToString(k))
  {
    CompletedNamesAllComplete(CompleteEntries(hash, chunks));
  }
}
