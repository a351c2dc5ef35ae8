/** ReadZip gives back what WriteZip was given, and what it gives for any octets at all. */
module ZipRoundTrip {
  import opened Octets
  import opened CariPath
  import opened CariTree
  import opened TextOrder
  import opened ZipWrite
  import opened ZipRead

  // ---- One record ---------------------------------------------------------

  /** What the reader sees of an entry whose local record starts at `offset`. */
  function HeaderOf(codec: Codec, e: Entry, offset: Word32): Header {
    Header(0x0800, Method(e), codec.crc(e.data), Cast32(|Body(codec, e)|), Cast32(|e.data|), e.name, 0, 0, offset)
  }

  lemma CentralReads(codec: Codec, stamp: Stamp, e: Entry, offset: Word32, zip: Text, eocd: nat, at: nat)
    requires |e.name| < 0x10000 && at + 46 + |e.name| <= eocd <= |zip|
    requires OccursAt(zip, CentralRecord(codec, stamp, e, offset), at)
    ensures HeaderAt(zip, eocd, at) == Ok(HeaderOf(codec, e, offset))
  {
    hide Half, Word, Get16, Get32, OccursAt;
    var r15 := Word(offset, e.name);
    var r14 := Word(if NamesFolder(e.name) then 0x10 else 0, r15);
    var r13 := Half(0, Half(0, r14));
    var r11 := Half(0, Half(0, r13));
    var r10 := Half(Cast16(|e.name|), r11);
    var r9 := Word(Cast32(|e.data|), r10);
    var r8 := Word(Cast32(|Body(codec, e)|), r9);
    var r7 := Word(codec.crc(e.data), r8);
    var r5 := Half(stamp.time, Half(stamp.date, r7));
    var r4 := Half(Method(e), r5);
    var r3 := Half(0x0800, r4);
    ReadWord(zip, CENTRAL_HEADER_SIG, Half(20, Half(20, r3)), at);
    ReadHalf(zip, 20, Half(20, r3), at + 4);
    ReadHalf(zip, 20, r3, at + 6);
    ReadHalf(zip, 0x0800, r4, at + 8);
    ReadHalf(zip, Method(e), r5, at + 10);
    ReadHalf(zip, stamp.time, Half(stamp.date, r7), at + 12);
    ReadHalf(zip, stamp.date, r7, at + 14);
    ReadWord(zip, codec.crc(e.data), r8, at + 16);
    ReadWord(zip, Cast32(|Body(codec, e)|), r9, at + 20);
    ReadWord(zip, Cast32(|e.data|), r10, at + 24);
    ReadHalf(zip, Cast16(|e.name|), r11, at + 28);
    ReadHalf(zip, 0, Half(0, r13), at + 30);
    ReadHalf(zip, 0, r13, at + 32);
    ReadHalf(zip, 0, Half(0, r14), at + 34);
    ReadHalf(zip, 0, r14, at + 36);
    ReadWord(zip, if NamesFolder(e.name) then 0x10 else 0, r15, at + 38);
    ReadWord(zip, offset, e.name, at + 42);
    OccursSlice(zip, e.name, at + 46);
  }

  lemma CentralLength(codec: Codec, stamp: Stamp, e: Entry, offset: Word32)
    ensures |CentralRecord(codec, stamp, e, offset)| == 46 + |e.name|
  {
  }

  lemma LocalLength(codec: Codec, stamp: Stamp, e: Entry)
    ensures |LocalRecord(codec, stamp, e)| == 30 + |e.name| + |Body(codec, e)|
  {
  }

  lemma LocalReads(codec: Codec, stamp: Stamp, e: Entry, zip: Text, at: nat)
    requires |e.name| < 0x10000 && OccursAt(zip, LocalRecord(codec, stamp, e), at)
    ensures at + 30 <= |zip| && Get32(zip, at) == LOCAL_HEADER_SIG
    ensures Get16(zip, at + 26) == |e.name| && Get16(zip, at + 28) == 0
    ensures OccursAt(zip, Body(codec, e), at + 30 + |e.name|)
  {
    hide Half, Word, Get16, Get32, OccursAt;
    var r11 := Half(0, e.name + Body(codec, e));
    var r10 := Half(Cast16(|e.name|), r11);
    var r9 := Word(Cast32(|e.data|), r10);
    var r8 := Word(Cast32(|Body(codec, e)|), r9);
    var r7 := Word(codec.crc(e.data), r8);
    var r5 := Half(stamp.time, Half(stamp.date, r7));
    var r3 := Half(0x0800, Half(Method(e), r5));
    ReadWord(zip, LOCAL_HEADER_SIG, Half(20, r3), at);
    ReadHalf(zip, 20, r3, at + 4);
    ReadHalf(zip, 0x0800, Half(Method(e), r5), at + 6);
    ReadHalf(zip, Method(e), r5, at + 8);
    ReadHalf(zip, stamp.time, Half(stamp.date, r7), at + 10);
    ReadHalf(zip, stamp.date, r7, at + 12);
    ReadWord(zip, codec.crc(e.data), r8, at + 14);
    ReadWord(zip, Cast32(|Body(codec, e)|), r9, at + 18);
    ReadWord(zip, Cast32(|e.data|), r10, at + 22);
    ReadHalf(zip, Cast16(|e.name|), r11, at + 26);
    ReadHalf(zip, 0, e.name + Body(codec, e), at + 28);
    OccursSplit(zip, e.name, Body(codec, e), at + 30);
  }

  lemma EndReads(entries: Word16, size: Word32, offset: Word32, zip: Text, at: nat)
    requires OccursAt(zip, EndRecord(entries, size, offset), at)
    ensures at + 22 <= |zip| && Get32(zip, at) == END_OF_CENTRAL_DIR_SIG
    ensures Get16(zip, at + 4) == Get16(zip, at + 6) == 0
    ensures Get16(zip, at + 8) == Get16(zip, at + 10) == entries
    ensures Get32(zip, at + 12) == size && Get32(zip, at + 16) == offset
  {
    hide Half, Word, Get16, Get32, OccursAt;
    var r6 := Half(0, []);
    var r5 := Word(offset, r6);
    var r4 := Word(size, r5);
    ReadWord(zip, END_OF_CENTRAL_DIR_SIG, Half(0, Half(0, Half(entries, Half(entries, r4)))), at);
    ReadHalf(zip, 0, Half(0, Half(entries, Half(entries, r4))), at + 4);
    ReadHalf(zip, 0, Half(entries, Half(entries, r4)), at + 6);
    ReadHalf(zip, entries, Half(entries, r4), at + 8);
    ReadHalf(zip, entries, r4, at + 10);
    ReadWord(zip, size, r5, at + 12);
    ReadWord(zip, offset, r6, at + 16);
    ReadHalf(zip, 0, [], at + 20);
  }

  lemma EndLength(entries: Word16, size: Word32, offset: Word32)
    ensures |EndRecord(entries, size, offset)| == 22
  {
  }

  // ---- Where the records stand --------------------------------------------

  lemma OccursInPrefix(text: Text, more: Text, pat: Text, at: nat)
    requires OccursAt(text, pat, at)
    ensures OccursAt(text + more, pat, at)
  {
  }

  lemma {:induction false} RecordsStand(codec: Codec, stamp: Stamp, entries: seq<Entry>, k: nat)
    requires k < |entries|
    ensures var all, before := Written(codec, stamp, entries), Written(codec, stamp, entries[..k]);
            OccursAt(all.0, LocalRecord(codec, stamp, entries[k]), |before.0|) &&
            OccursAt(all.1, CentralRecord(codec, stamp, entries[k], Cast32(|before.0|)), |before.1|)
    decreases |entries|
  {
    hide LocalRecord, CentralRecord, Written, OccursAt;
    var n := |entries| - 1;
    WrittenStep(codec, stamp, entries, n);
    assert entries[..n + 1] == entries;
    var last := Written(codec, stamp, entries[..n]);
    var local := LocalRecord(codec, stamp, entries[n]);
    var central := CentralRecord(codec, stamp, entries[n], Cast32(|last.0|));
    if k == n {
      OccursAtEnd(last.0, local);
      OccursAtEnd(last.1, central);
    } else {
      assert entries[..n][..k] == entries[..k];
      RecordsStand(codec, stamp, entries[..n], k);
      var before := Written(codec, stamp, entries[..k]);
      OccursInPrefix(last.0, local, LocalRecord(codec, stamp, entries[k]), |before.0|);
      OccursInPrefix(last.1, central, CentralRecord(codec, stamp, entries[k], Cast32(|before.0|)), |before.1|);
    }
  }

  lemma OccursAtEnd(text: Text, more: Text)
    ensures OccursAt(text + more, more, |text|)
  {
  }

  lemma OccursLater(before: Text, text: Text, after: Text, pat: Text, at: nat)
    requires OccursAt(text, pat, at)
    ensures OccursAt(before + text + after, pat, |before| + at)
  {
    OccursInside(before, text, after, pat, at);
  }

  /** The limits of the format and of the reader. */
  ghost predicate WithinLimits(codec: Codec, stamp: Stamp, t: Tree) {
    |t.folders| + |t.files| <= MAX_ENTRIES && TotalSize(t.files) <= MAX_TOTAL_UNCOMPRESSED &&
    |ZipOf(codec, stamp, t)| <= MAX_ZIP_BYTES &&
    (forall f :: f in t.folders ==> |f| + 1 < 0x10000) && (forall f :: f in t.files ==> |f| < 0x10000)
  }

  /** The two buffers when `k` entries are written. */
  ghost function Buffers(codec: Codec, stamp: Stamp, t: Tree, k: nat): (Text, Text)
    requires k <= |Entries(t)|
  {
    Written(codec, stamp, Entries(t)[..k])
  }

  lemma ZipParts(codec: Codec, stamp: Stamp, t: Tree)
    ensures var n := |Entries(t)|;
            var buffers := Buffers(codec, stamp, t, n);
            var end := EndRecord(Cast16(n), Cast32(|buffers.1|), Cast32(|buffers.0|));
            ZipOf(codec, stamp, t) == buffers.0 + buffers.1 + end && |end| == 22
  {
    hide Entries, Written, EndRecord;
    assert Entries(t)[..|Entries(t)|] == Entries(t);
    var buffers := Buffers(codec, stamp, t, |Entries(t)|);
    EndLength(Cast16(|Entries(t)|), Cast32(|buffers.1|), Cast32(|buffers.0|));
  }

  /** Where the records of the entry after `k` entries stand. */
  lemma EntryStands(codec: Codec, stamp: Stamp, t: Tree, k: nat)
    requires k < |Entries(t)|
    ensures var zip, before, all := ZipOf(codec, stamp, t), Buffers(codec, stamp, t, k), Buffers(codec, stamp, t, |Entries(t)|);
            var e := Entries(t)[k];
            OccursAt(zip, LocalRecord(codec, stamp, e), |before.0|) &&
            OccursAt(zip, CentralRecord(codec, stamp, e, Cast32(|before.0|)), |all.0| + |before.1|) &&
            |all.0| + |before.1| + |CentralRecord(codec, stamp, e, Cast32(|before.0|))| <= |zip| - 22
  {
    hide Entries, Written, EndRecord, LocalRecord, CentralRecord, OccursAt, ZipOf;
    ZipParts(codec, stamp, t);
    var entries := Entries(t);
    assert entries[..|entries|] == entries;
    RecordsStand(codec, stamp, entries, k);
    var before, all := Written(codec, stamp, entries[..k]), Written(codec, stamp, entries);
    var end := EndRecord(Cast16(|entries|), Cast32(|all.1|), Cast32(|all.0|));
    var local, central := LocalRecord(codec, stamp, entries[k]), CentralRecord(codec, stamp, entries[k], Cast32(|before.0|));
    OccursLater([], all.0, all.1 + end, local, |before.0|);
    assert [] + all.0 + (all.1 + end) == all.0 + all.1 + end;
    OccursLater(all.0, all.1, end, central, |before.1|);
    OccursFits(all.1, central, |before.1|);
  }

  lemma OccursFits(text: Text, pat: Text, at: nat)
    requires OccursAt(text, pat, at)
    ensures at + |pat| <= |text|
  {
  }

  /** What the reader makes of the entry after `k` entries. */
  lemma EntryReads(codec: Codec, stamp: Stamp, t: Tree, k: nat)
    requires Lossless(codec) && k < |Entries(t)| && |ZipOf(codec, stamp, t)| <= MAX_ZIP_BYTES
    requires |Entries(t)[k].name| < 0x10000 && |Entries(t)[k].data| <= MAX_TOTAL_UNCOMPRESSED
    ensures var zip, before, all := ZipOf(codec, stamp, t), Buffers(codec, stamp, t, k), Buffers(codec, stamp, t, |Entries(t)|);
            var e, at, eocd := Entries(t)[k], |all.0| + |before.1|, |zip| - 22;
            eocd >= 0 && |before.0| < 0xFFFFFFFF &&
            var h := HeaderOf(codec, e, |before.0|);
            HeaderAt(zip, eocd, at) == Ok(h) &&
            After(at, h) == |all.0| + |Buffers(codec, stamp, t, k + 1).1| &&
            (IsSafeZipPath(PathOf(h)) ==> HeaderFault(h).None?) &&
            (!NamesFolder(e.name) ==> Contents(codec, zip, h) == Ok(e.data))
  {
    hide Entries, Written, EndRecord, LocalRecord, CentralRecord, OccursAt, ZipOf, IsSafeZipPath, HeaderAt, Contents;
    EntryStands(codec, stamp, t, k);
    var zip, before, all := ZipOf(codec, stamp, t), Buffers(codec, stamp, t, k), Buffers(codec, stamp, t, |Entries(t)|);
    var e := Entries(t)[k];
    OccursFits(zip, LocalRecord(codec, stamp, e), |before.0|);
    LocalLength(codec, stamp, e);
    CentralLength(codec, stamp, e, |before.0|);
    CentralReads(codec, stamp, e, |before.0|, zip, |zip| - 22, |all.0| + |before.1|);
    WrittenStep(codec, stamp, Entries(t), k);
    if !NamesFolder(e.name) {
      ContentsRead(codec, stamp, e, zip, |before.0|);
    }
  }

  lemma ContentsRead(codec: Codec, stamp: Stamp, e: Entry, zip: Text, at: nat)
    requires Lossless(codec) && |zip| <= MAX_ZIP_BYTES && !NamesFolder(e.name)
    requires |e.name| < 0x10000 && |e.data| <= MAX_TOTAL_UNCOMPRESSED
    requires OccursAt(zip, LocalRecord(codec, stamp, e), at)
    ensures at < 0x1_0000_0000 && Contents(codec, zip, HeaderOf(codec, e, at)) == Ok(e.data)
  {
    hide OccursAt, LocalRecord, Get16, Get32, NamesFolder, Inflate, Lossless;
    LocalReads(codec, stamp, e, zip, at);
    var dataAt, packed := at + 30 + |e.name|, codec.deflate(e.data);
    OccursSlice(zip, packed, dataAt);
    InflatesBack(codec, e.data);
  }

  lemma InflatesBack(codec: Codec, data: Text)
    requires Lossless(codec)
    ensures Inflate(codec, codec.deflate(data), |data|) == Some(data)
  {
  }

  // ---- The whole file -----------------------------------------------------

  /** `so` is what reading the first `k` entries of `t` gives. */
  ghost predicate HalfRead(t: Tree, so: Tree, k: nat) {
    var folders, paths := Sorted(t.folders), Sorted(t.files.Keys);
    so.folders <= t.folders && (forall i :: 0 <= i < |folders| && i < k ==> folders[i] in so.folders) &&
    (forall p :: p in so.files ==> p in t.files && so.files[p] == t.files[p]) &&
    (forall i :: 0 <= i < |paths| ==> (paths[i] in so.files <==> |folders| + i < k))
  }

  lemma AllRead(t: Tree, so: Tree)
    requires HalfRead(t, so, |t.folders| + |t.files|)
    ensures so == t
  {
    hide Sorted;
    assert |t.files| == |t.files.Keys|;
    forall f | f in t.folders
      ensures f in so.folders
    {
      var i :| 0 <= i < |Sorted(t.folders)| && Sorted(t.folders)[i] == f;
    }
    forall p | p in t.files
      ensures p in so.files
    {
      var i :| 0 <= i < |Sorted(t.files.Keys)| && Sorted(t.files.Keys)[i] == p;
    }
  }

  lemma FolderStep(t: Tree, so: Tree, k: nat)
    requires WellFormed(t) && HalfRead(t, so, k) && k < |t.folders|
    ensures HalfRead(t, WithFolder(so, Sorted(t.folders)[k]), k + 1)
  {
    hide WithFolder, IsSafeZipPath, FoldersFrom, Sorted;
    var folder := Sorted(t.folders)[k];
    assert folder in t.folders;
    WithFolderAdds(so, folder);
    FoldersAlreadyIn(t, folder);
    FolderItself(folder);
  }

  lemma FolderItself(path: Text)
    requires GoodPath(path)
    ensures path in FoldersFrom(path, 0)
  {
    assert path[..|path|] == path;
    assert Boundary(path, |path|);
  }

  lemma FileStep(t: Tree, so: Tree, j: nat)
    requires WellFormed(t) && HalfRead(t, so, |t.folders| + j) && j < |t.files|
    ensures var path := Sorted(t.files.Keys)[j];
            path !in so.files && HalfRead(t, WithFile(so, path, t.files[path]), |t.folders| + j + 1)
  {
    hide WithFile, FileFolders, IsSafeZipPath, Sorted, WellFormed;
    var paths := Sorted(t.files.Keys);
    var path := paths[j];
    assert path in t.files;
    assert GoodPath(path) by {
      PathsAreGood(t, path);
    }
    FileAdds(so, path, t.files[path]);
    FoldersAlreadyIn(t, path);
    forall i | 0 <= i < |paths| && i != j
      ensures paths[i] != path
    {
      SortedDistinct(t.files.Keys, if i < j then i else j, if i < j then j else i);
    }
  }

  lemma PathsAreGood(t: Tree, path: Text)
    requires WellFormed(t)
    ensures path in t.files || path in t.folders ==> GoodPath(path)
  {
  }

  lemma EntryIs(t: Tree, k: nat)
    requires k < |Entries(t)|
    ensures k < |t.folders| ==> Entries(t)[k] == Entry(Sorted(t.folders)[k] + "/", [])
    ensures k >= |t.folders| ==>
              var path := Sorted(t.files.Keys)[k - |t.folders|];
              path in t.files && Entries(t)[k] == Entry(path, t.files[path])
  {
    hide Sorted;
  }

  ghost predicate GoodStart(codec: Codec, stamp: Stamp, t: Tree, k: nat, s: Reading) {
    k <= |Entries(t)| && HalfRead(t, s.tree, k) && s.total == TotalSize(s.tree.files) &&
    s.at == |Buffers(codec, stamp, t, |Entries(t)|).0| + |Buffers(codec, stamp, t, k).1|
  }

  /** The reader takes the entry after `k` entries as it should. */
  ghost predicate ReadsOne(codec: Codec, stamp: Stamp, t: Tree, k: nat, s: Reading) {
    var zip := ZipOf(codec, stamp, t);
    |zip| >= 22 && ReadEntry(codec, zip, |zip| - 22, s).Ok? &&
    GoodStart(codec, stamp, t, k + 1, ReadEntry(codec, zip, |zip| - 22, s).value)
  }

  lemma FolderTaken(codec: Codec, zip: Text, eocd: nat, s: Reading, h: Header)
    requires eocd <= |zip| && HeaderAt(zip, eocd, s.at) == Ok(h) && HeaderFault(h).None? && NamesFolder(h.name)
    ensures ReadEntry(codec, zip, eocd, s) == Ok(Reading(After(s.at, h), s.total, WithFolder(s.tree, PathOf(h))))
  {
    hide HeaderAt, HeaderFault, Contents, WithFolder, WithFile, After;
  }

  lemma FileTaken(codec: Codec, zip: Text, eocd: nat, s: Reading, h: Header, data: Text)
    requires eocd <= |zip| && HeaderAt(zip, eocd, s.at) == Ok(h) && HeaderFault(h).None? && !NamesFolder(h.name)
    requires s.total + h.usize <= MAX_TOTAL_UNCOMPRESSED && Contents(codec, zip, h) == Ok(data)
    requires PathOf(h) !in s.tree.files
    ensures ReadEntry(codec, zip, eocd, s) == Ok(Reading(After(s.at, h), s.total + h.usize, WithFile(s.tree, PathOf(h), data)))
  {
    hide HeaderAt, HeaderFault, Contents, WithFolder, WithFile, After;
  }

  lemma ReadsFolder(codec: Codec, stamp: Stamp, t: Tree, k: nat, s: Reading)
    requires Lossless(codec) && WellFormed(t) && WithinLimits(codec, stamp, t)
    requires GoodStart(codec, stamp, t, k, s) && k < |t.folders|
    ensures ReadsOne(codec, stamp, t, k, s)
  {
    hide Entries, ZipOf, Sorted, HalfRead, IsSafeZipPath, WithFolder, Buffers, After, ReadEntry, HeaderAt, HeaderFault,
      TotalSize, ParentsIn, Lossless, Contents;
    EntryIs(t, k);
    var folder := Sorted(t.folders)[k];
    assert folder in Sorted(t.folders);
    PathsAreGood(t, folder);
    EntryReads(codec, stamp, t, k);
    var zip, e := ZipOf(codec, stamp, t), Entries(t)[k];
    assert e.name[..|e.name| - 1] == folder;
    FolderTaken(codec, zip, |zip| - 22, s, HeaderOf(codec, e, |Buffers(codec, stamp, t, k).0|));
    FolderStep(t, s.tree, k);
    FilesOfWithFolder(s.tree, folder);
  }

  lemma ReadsFile(codec: Codec, stamp: Stamp, t: Tree, k: nat, s: Reading)
    requires Lossless(codec) && WellFormed(t) && WithinLimits(codec, stamp, t)
    requires GoodStart(codec, stamp, t, k, s) && |t.folders| <= k < |t.folders| + |t.files|
    ensures ReadsOne(codec, stamp, t, k, s)
  {
    hide Entries, ZipOf, Sorted, HalfRead, IsSafeZipPath, WithFile, Buffers, After, ReadEntry, HeaderAt, HeaderFault,
      TotalSize, ParentsIn, Lossless, Contents;
    EntryIs(t, k);
    var path := Sorted(t.files.Keys)[k - |t.folders|];
    PathsAreGood(t, path);
    FileStep(t, s.tree, k - |t.folders|);
    RoomForFile(t, s.tree, path, k);
    EntryReads(codec, stamp, t, k);
    var zip, e := ZipOf(codec, stamp, t), Entries(t)[k];
    FileTaken(codec, zip, |zip| - 22, s, HeaderOf(codec, e, |Buffers(codec, stamp, t, k).0|), e.data);
    FilesOfWithFile(s.tree, path, t.files[path]);
  }

  lemma FilesOfWithFolder(t: Tree, path: Text)
    ensures WithFolder(t, path).files == t.files
  {
  }

  lemma FilesOfWithFile(t: Tree, path: Text, bytes: Text)
    ensures WithFile(t, path, bytes).files == t.files[path := bytes]
  {
  }

  /** The sizes so far and this one are part of the whole size. */
  lemma RoomForFile(t: Tree, so: Tree, path: Text, k: nat)
    requires HalfRead(t, so, k) && path in t.files && path !in so.files
    ensures TotalSize(so.files[path := t.files[path]]) == TotalSize(so.files) + |t.files[path]| <= TotalSize(t.files)
  {
    TotalSizeWith(so.files, path, t.files[path]);
    TotalSizeOfPart(so.files[path := t.files[path]], t.files);
  }

  /** Reading on from there gives the whole tree. */
  ghost predicate ReadsOn(codec: Codec, stamp: Stamp, t: Tree, n: nat, s: Reading) {
    var zip := ZipOf(codec, stamp, t);
    |zip| >= 22 && ReadEntries(codec, zip, |zip| - 22, n, s).Ok? &&
    ReadEntries(codec, zip, |zip| - 22, n, s).value.tree == t
  }

  lemma {:induction false} ReadsRest(codec: Codec, stamp: Stamp, t: Tree, n: nat, s: Reading)
    requires Lossless(codec) && WellFormed(t) && WithinLimits(codec, stamp, t) && n <= |Entries(t)|
    requires GoodStart(codec, stamp, t, |Entries(t)| - n, s)
    ensures ReadsOn(codec, stamp, t, n, s)
    decreases n
  {
    hide ReadEntry, ZipOf, HalfRead, WellFormed, Lossless, WithinLimits, Buffers, TotalSize, Entries, Written;
    ZipParts(codec, stamp, t);
    var zip, k := ZipOf(codec, stamp, t), |Entries(t)| - n;
    if n == 0 {
      AllRead(t, s.tree);
    } else {
      if k < |t.folders| {
        ReadsFolder(codec, stamp, t, k, s);
      } else {
        ReadsFile(codec, stamp, t, k, s);
      }
      ReadsRest(codec, stamp, t, n - 1, ReadEntry(codec, zip, |zip| - 22, s).value);
    }
  }

  /** The reader finds the directory where the writer put it. */
  ghost predicate FindsDirectory(codec: Codec, stamp: Stamp, t: Tree) {
    var zip, all := ZipOf(codec, stamp, t), Buffers(codec, stamp, t, |Entries(t)|);
    |zip| >= 22 && |Entries(t)| < 0x10000 && |all.0| < 0x1_0000_0000 &&
    FindDirectory(zip) == Ok(Directory(|zip| - 22, |Entries(t)|, |all.0|))
  }

  lemma DirectoryFound(codec: Codec, stamp: Stamp, t: Tree)
    requires WithinLimits(codec, stamp, t) && Entries(t) != []
    ensures FindsDirectory(codec, stamp, t)
  {
    hide Entries, EndRecord, ZipOf, LocalRecord, CentralRecord, OccursAt, Get16, Get32, Buffers, TotalSize, FindDirectory, Written;
    var zip, all := ZipOf(codec, stamp, t), Buffers(codec, stamp, t, |Entries(t)|);
    ZipParts(codec, stamp, t);
    var end := EndRecord(|Entries(t)|, |all.1|, |all.0|);
    OccursAtEnd(all.0 + all.1, end);
    EndReads(|Entries(t)|, |all.1|, |all.0|, zip, |zip| - 22);
    EntryStands(codec, stamp, t, 0);
    FirstRecord(codec, stamp, t, zip);
    DirectoryIs(zip, |Entries(t)|, |all.1|, |all.0|);
  }

  lemma DirectoryIs(zip: Text, entries: Word16, size: Word32, offset: Word32)
    requires 22 <= |zip| <= MAX_ZIP_BYTES && entries <= MAX_ENTRIES && offset + size <= |zip| - 22
    requires Get32(zip, 0) == LOCAL_HEADER_SIG && Get32(zip, |zip| - 22) == END_OF_CENTRAL_DIR_SIG
    requires Get16(zip, |zip| - 18) == Get16(zip, |zip| - 16) == 0
    requires Get16(zip, |zip| - 14) == Get16(zip, |zip| - 12) == entries
    requires Get32(zip, |zip| - 10) == size && Get32(zip, |zip| - 6) == offset
    ensures FindDirectory(zip) == Ok(Directory(|zip| - 22, entries, offset))
  {
    hide FindEnd, Get16, Get32;
    EndAtEnd(zip);
  }

  lemma EndAtEnd(zip: Text)
    requires |zip| >= 22 && Get32(zip, |zip| - 22) == END_OF_CENTRAL_DIR_SIG
    ensures FindEnd(zip, |zip| - 21, if |zip| > 65557 then |zip| - 65557 else 0) == Some(|zip| - 22)
  {
    hide Get32;
  }

  lemma FirstRecord(codec: Codec, stamp: Stamp, t: Tree, zip: Text)
    requires Entries(t) != [] && OccursAt(zip, LocalRecord(codec, stamp, Entries(t)[0]), |Buffers(codec, stamp, t, 0).0|)
    ensures |zip| >= 4 && Get32(zip, 0) == LOCAL_HEADER_SIG
  {
    hide Get32, Half, Word, OccursAt, Entries;
    NothingWritten(codec, stamp, Entries(t));
    var e := Entries(t)[0];
    ReadWord(zip, LOCAL_HEADER_SIG, Half(20, Half(0x0800, Half(Method(e), Half(stamp.time, Half(stamp.date,
      Word(codec.crc(e.data), Word(Cast32(|Body(codec, e)|), Word(Cast32(|e.data|),
        Half(Cast16(|e.name|), Half(0, e.name + Body(codec, e))))))))))), 0);
  }

  lemma StartIsGood(codec: Codec, stamp: Stamp, t: Tree)
    ensures GoodStart(codec, stamp, t, 0, Reading(|Buffers(codec, stamp, t, |Entries(t)|).0|, 0, EMPTY))
  {
    hide Entries, Written;
    NothingWritten(codec, stamp, Entries(t));
  }

  /** Reading what was written gives the same tree, for every non-empty well-formed tree within the limits. */
  lemma ReadGivesBackTree(codec: Codec, stamp: Stamp, t: Tree)
    requires Lossless(codec) && WellFormed(t) && t != EMPTY && WithinLimits(codec, stamp, t)
    ensures Read(codec, ZipOf(codec, stamp, t)) == Ok(t)
  {
    hide ReadEntries, ZipOf, WellFormed, Lossless, WithinLimits, FindDirectory, GoodStart, Buffers;
    assert Entries(t) != [];
    DirectoryFound(codec, stamp, t);
    StartIsGood(codec, stamp, t);
    ReadsRest(codec, stamp, t, |Entries(t)|, Reading(|Buffers(codec, stamp, t, |Entries(t)|).0|, 0, EMPTY));
  }
}
