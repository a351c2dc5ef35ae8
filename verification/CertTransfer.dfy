/** A certificate written in chunks over BACnet and read back in chunks (main.cpp's file callbacks over the store). */
module CertTransfer {
  import opened Octets
  import opened CertFiles
  import CertContents
  import CertStore

  function Joined(chunks: seq<Text>): Text {
    if chunks == [] then [] else chunks[0] + Joined(chunks[1..])
  }

  // ---- Writing ------------------------------------------------------------

  /** A client's writes, one after the other, each at the position reached or as an append; the acknowledged starts. */
  function WriteChunks(l: Layout, s: Store, i: nat, at: nat, chunks: seq<Text>, append: nat -> bool):
      (Store, seq<Result<nat, WriteError>>)
    requires l.Acyclic()
    decreases |chunks|
  {
    if chunks == [] then (s, [])
    else
      var (s1, ack) := Write(l, s, i, if append(at) then -1 else at, chunks[0]);
      var (s2, acks) := WriteChunks(l, s1, i, at + |chunks[0]|, chunks[1..], append);
      (s2, [ack] + acks)
  }

  /** The acknowledgements of writes that all succeed, from `at` on. */
  predicate AllAcknowledged(acks: seq<Result<nat, WriteError>>, at: nat, chunks: seq<Text>) {
    |acks| == |chunks| &&
    (chunks != [] ==> acks[0] == Ok(at) && AllAcknowledged(acks[1..], at + |chunks[0]|, chunks[1..]))
  }

  lemma WriteAtEnd(l: Layout, s: Store, i: nat, sofar: Text, data: Text, fileStart: int)
    requires l.Acyclic() && i in l.paths && i in s.staged && s.staged[i] == sofar
    requires |sofar| + |data| <= MAX_FILE_BYTES && fileStart in {-1, |sofar|}
    ensures Write(l, s, i, fileStart, data) == (s.(staged := s.staged[i := sofar + data]), Ok(|sofar|))
  {
    assert Overwrite(sofar, |sofar|, data) == sofar + data;
  }

  lemma {:induction false} ChunksAppend(l: Layout, s: Store, i: nat, sofar: Text, chunks: seq<Text>, append: nat -> bool)
    requires l.Acyclic() && i in l.paths && i in s.staged && s.staged[i] == sofar
    requires |sofar| + |Joined(chunks)| <= MAX_FILE_BYTES
    ensures var (t, acks) := WriteChunks(l, s, i, |sofar|, chunks, append);
            t == s.(staged := s.staged[i := sofar + Joined(chunks)]) && AllAcknowledged(acks, |sofar|, chunks)
    decreases |chunks|
  {
    if chunks == [] {
      assert s.staged[i := sofar + []] == s.staged by { assert sofar + [] == sofar; }
    } else {
      var grown := sofar + chunks[0];
      hide Write;
      WriteAtEnd(l, s, i, sofar, chunks[0], if append(|sofar|) then -1 else |sofar|);
      ChunksAppend(l, s.(staged := s.staged[i := grown]), i, grown, chunks[1..], append);
      assert grown + Joined(chunks[1..]) == sofar + Joined(chunks);
    }
  }

  /** Setting File_Size to 0 and then writing any partition of at most 65536 octets: every write succeeds and is
      acknowledged at the position it was meant for, the File object then reads as those octets, nothing on disk has
      changed, and discarding makes every File object read as it would have with nothing staged. */
  lemma ChunkedWrite(l: Layout, s: Store, i: nat, chunks: seq<Text>, append: nat -> bool)
    requires l.WellFormed() && i in l.paths && |Joined(chunks)| <= MAX_FILE_BYTES
    ensures var (s1, error) := Resize(l, s, i, 0);
            var (s2, acks) := WriteChunks(l, s1, i, 0, chunks, append);
            error == None && AllAcknowledged(acks, 0, chunks) &&
            Read(l, s2, i) == Some(Joined(chunks)) && s2.disk == s.disk && Discard(s2) == Discard(s)
  {
    var s1 := Resize(l, s, i, 0).0;
    assert s1.staged[i] == [];
    ChunksAppend(l, s1, i, [], chunks, append);
    assert [] + Joined(chunks) == Joined(chunks);
  }

  /** No write and no resize, refused or not, changes what a discard goes back to: the contents on disk. */
  lemma DiscardForgetsWrites(l: Layout, s: Store, i: nat, fileStart: int, data: Text, newSize: nat)
    requires l.Acyclic()
    ensures Discard(Write(l, s, i, fileStart, data).0) == Discard(s)
    ensures Discard(Resize(l, s, i, newSize).0) == Discard(s)
  {
    hide Effective;
  }

  /** A staged copy of `i` is read by `i` and by every File object that falls back to it: as before if there was
      something to copy, and as an empty file where there was none. */
  lemma {:induction false} StagingIsRead(l: Layout, s: Store, i: nat, j: nat)
    requires l.WellFormed() && i in l.paths
    ensures Read(l, Stage(l, s, i), j) == Read(l, s, j) ||
            (Read(l, s, i) == None && Read(l, s, j) == None && Read(l, Stage(l, s, i), j) == Some([]))
    decreases l.Rank(j)
  {
    var t := Stage(l, s, i);
    if i in s.staged {
    } else if j == i {
      assert Read(l, t, i) == Some(Effective(l, s, i));
    } else if FallbackInstance(l, s, j) != 0 {
      l.RankFalls(j);
      StagingIsRead(l, s, i, l.readFallbackInstances[j]);
    }
  }

  /** Every refused write to one of our File objects leaves a staged copy of it, so HasStagedChanges turns true; and
      every File object then reads as before if and only if there was something to read in the first place. */
  lemma RefusedWriteStages(l: Layout, s: Store, i: nat, fileStart: int, data: Text)
    requires l.WellFormed() && i in l.paths && Write(l, s, i, fileStart, data).1.Err?
    ensures var t := Write(l, s, i, fileStart, data).0;
            t == Stage(l, s, i) && t.staged != map[] &&
            (Read(l, t, i) == Read(l, s, i) <==> Read(l, s, i).Some?) &&
            ((forall j :: Read(l, t, j) == Read(l, s, j)) <==> Read(l, s, i).Some?)
  {
    hide Read;
    var t := Write(l, s, i, fileStart, data).0;
    assert i in t.staged;
    CertContents.StagedIsRead(l, t, i);
    forall j
      ensures Read(l, s, i).Some? ==> Read(l, t, j) == Read(l, s, j)
    {
      StagingIsRead(l, s, i, j);
    }
  }

  /** So a client can see a missing file turn into an empty one by a write that was refused. */
  lemma RefusedWriteCanShow(l: Layout, s: Store, i: nat, data: Text)
    requires l.WellFormed() && i in l.paths && Read(l, s, i) == None
    ensures Write(l, s, i, -2, data).1 == Err(InvalidFileStartPosition)
    ensures Read(l, Write(l, s, i, -2, data).0, i) == Some([])
  {
    StagingIsRead(l, s, i, i);
    RefusedWriteStages(l, s, i, -2, data);
  }

  // ---- Reading ------------------------------------------------------------

  function Lesser(a: nat, b: nat): nat {
    if a < b then a else b
  }

  /** AtomicReadFile: the octets from `fileStart` on, as many as asked for, as there are and as fit; and whether the
      file ends with them. None past the end. */
  function ReadChunk(bytes: Text, fileStart: nat, requested: nat, max: nat): (r: Option<(Text, bool)>) {
    if |bytes| < fileStart then None
    else
      var n := Lesser(Lesser(requested, |bytes| - fileStart), max);
      Some((bytes[fileStart..fileStart + n], fileStart + n >= |bytes|))
  }

  /** A chunk is the octets at that position, as many as were asked for unless the file or the buffer ends before, and
      never more than the buffer holds; a start behind the last octet is refused. */
  lemma ReadChunkIs(bytes: Text, fileStart: nat, requested: nat, max: nat)
    ensures ReadChunk(bytes, fileStart, requested, max).None? <==> fileStart > |bytes|
    ensures ReadChunk(bytes, fileStart, requested, max).Some? ==>
              var (chunk, endOfFile) := ReadChunk(bytes, fileStart, requested, max).value;
              |chunk| <= requested && |chunk| <= max && fileStart + |chunk| <= |bytes| &&
              (|chunk| == requested || |chunk| == max || fileStart + |chunk| == |bytes|) &&
              (forall k :: 0 <= k < |chunk| ==> chunk[k] == bytes[fileStart + k]) &&
              (endOfFile <==> fileStart + |chunk| == |bytes|)
  {
  }

  method CallbackReadFile(store: CertStore.FileStore, fileInstance: nat, fileStart: nat, requestedCount: nat,
                          maxFileDataLength: nat) returns (r: Option<(Text, bool)>)
    requires store.Valid()
    ensures r == match Read(store.layout, store.State(), fileInstance)
                 case None => None
                 case Some(bytes) => ReadChunk(bytes, fileStart, requestedCount, maxFileDataLength)
  {
    var bytes := store.ReadFile(fileInstance);
    if bytes.None? {
      return None;
    }
    var totalSize := |bytes.value|;
    if totalSize < fileStart {
      return None;  // starts behind the last octet
    }
    var remaining := totalSize - fileStart;
    var toRead := if requestedCount < remaining then requestedCount else remaining;
    if toRead > maxFileDataLength {
      toRead := maxFileDataLength;
    }
    return Some((bytes.value[fileStart..fileStart + toRead], fileStart + toRead >= totalSize));
  }

  /** The chunks a client gets that reads on from where the last chunk ended until end of file is reported; the two
      limits may differ from read to read but are positive. */
  function ReadChunks(bytes: Text, at: nat, requested: nat -> nat, max: nat -> nat): (chunks: seq<Text>)
    requires at <= |bytes| && forall k :: requested(k) > 0 && max(k) > 0
    decreases |bytes| - at
  {
    var (chunk, endOfFile) := ReadChunk(bytes, at, requested(at), max(at)).value;
    if endOfFile then [chunk] else [chunk] + ReadChunks(bytes, at + |chunk|, requested, max)
  }

  /** Each chunk is what a read at that position returns, and is reported as the end of the file exactly if it is the
      last one. */
  predicate EndsOnlyAtLast(bytes: Text, at: nat, chunks: seq<Text>, requested: nat -> nat, max: nat -> nat)
    decreases |chunks|
  {
    chunks != [] && ReadChunk(bytes, at, requested(at), max(at)) == Some((chunks[0], |chunks| == 1)) &&
    (|chunks| > 1 ==> EndsOnlyAtLast(bytes, at + |chunks[0]|, chunks[1..], requested, max))
  }

  /** Reading in chunks ends, the chunks together are the file, and only the last one is reported as its end. */
  lemma {:induction false} ChunkedRead(bytes: Text, at: nat, requested: nat -> nat, max: nat -> nat)
    requires at <= |bytes| && forall k :: requested(k) > 0 && max(k) > 0
    ensures Joined(ReadChunks(bytes, at, requested, max)) == bytes[at..]
    ensures EndsOnlyAtLast(bytes, at, ReadChunks(bytes, at, requested, max), requested, max)
    decreases |bytes| - at
  {
    var (chunk, endOfFile) := ReadChunk(bytes, at, requested(at), max(at)).value;
    if endOfFile {
      assert chunk == bytes[at..] && chunk + [] == chunk;
    } else {
      var rest := ReadChunks(bytes, at + |chunk|, requested, max);
      ChunkedRead(bytes, at + |chunk|, requested, max);
      assert chunk + bytes[at + |chunk|..] == bytes[at..];
      assert ([chunk] + rest)[1..] == rest && rest != [];
    }
  }

  /** What was written in chunks is what is read back in chunks. */
  lemma TransferRoundTrip(l: Layout, s: Store, i: nat, chunks: seq<Text>, append: nat -> bool, requested: nat -> nat,
                          max: nat -> nat)
    requires l.WellFormed() && i in l.paths && |Joined(chunks)| <= MAX_FILE_BYTES
    requires forall k :: requested(k) > 0 && max(k) > 0
    ensures var read := Read(l, WriteChunks(l, Resize(l, s, i, 0).0, i, 0, chunks, append).0, i);
            read.Some? && Joined(ReadChunks(read.value, 0, requested, max)) == Joined(chunks)
  {
    hide Read, WriteChunks, Resize;
    ChunkedWrite(l, s, i, chunks, append);
    ChunkedRead(Joined(chunks), 0, requested, max);
  }
}
