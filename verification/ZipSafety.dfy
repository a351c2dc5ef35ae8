/** What ReadZip gives for any octets at all, and exactly when a tree survives being written and read. */
module ZipSafety {
  import opened Octets
  import opened CariPath
  import opened CariTree
  import opened ZipWrite
  import opened ZipRead
  import opened ZipRoundTrip

  // ---- Safe trees only ----------------------------------------------------

  /** Paths that fit the 16-bit length of an entry name, the '/' of a folder entry included. */
  predicate ShortPaths(t: Tree) {
    (forall f :: f in t.folders ==> |f| + 1 < 0x10000) && (forall f :: f in t.files ==> |f| < 0x10000)
  }

  ghost predicate Sane(s: Reading) {
    WellFormed(s.tree) && ShortPaths(s.tree) && s.total == TotalSize(s.tree.files) <= MAX_TOTAL_UNCOMPRESSED
  }

  /** The folders an entry stands for: its own path if it names a folder, and all above it. */
  function EntryFolders(h: Header): set<Text> {
    if NamesFolder(h.name) then FoldersFrom(PathOf(h), 0) else FileFolders(PathOf(h))
  }

  lemma FoldersAreShort(path: Text, f: Text)
    requires f in FoldersFrom(path, 0)
    ensures |f| <= |path|
  {
  }

  lemma EntryFoldersAreShort(h: Header, f: Text)
    requires |h.name| < 0x10000 && f in EntryFolders(h)
    ensures |f| + 1 < 0x10000
  {
    hide FoldersFrom, LastSlash;
    if NamesFolder(h.name) {
      FoldersAreShort(PathOf(h), f);
    } else {
      FoldersAreShort(PathOf(h)[..LastSlash(PathOf(h)).value], f);
    }
  }

  /** What one entry does to the tree. */
  lemma EntryEffect(codec: Codec, zip: Text, eocd: nat, s: Reading)
    requires eocd <= |zip| && ReadEntry(codec, zip, eocd, s).Ok?
    ensures var r := ReadEntry(codec, zip, eocd, s).value;
            HeaderAt(zip, eocd, s.at).Ok? &&
            var h := HeaderAt(zip, eocd, s.at).value;
            r.at == After(s.at, h) && |h.name| < 0x10000 && IsSafeZipPath(PathOf(h)) &&
            r.tree.folders == s.tree.folders + EntryFolders(h) &&
            if NamesFolder(h.name) then r.tree.files == s.tree.files && r.total == s.total
            else Canonical(PathOf(h)) && Contents(codec, zip, h).Ok? && PathOf(h) !in s.tree.files &&
                 r.tree == WithFile(s.tree, PathOf(h), Contents(codec, zip, h).value) &&
                 r.tree.files == s.tree.files[PathOf(h) := Contents(codec, zip, h).value] &&
                 r.total == s.total + h.usize <= MAX_TOTAL_UNCOMPRESSED
  {
    hide WithFolder, WithFile, IsSafeZipPath, FoldersFrom, FileFolders, Contents, ParentsIn, Get32;
    var h := HeaderAt(zip, eocd, s.at).value;
    if NamesFolder(h.name) {
      WithFolderAdds(s.tree, PathOf(h));
    } else {
      SafePathNotEmpty(PathOf(h));
      FileAdds(s.tree, PathOf(h), Contents(codec, zip, h).value);
    }
  }

  lemma SafePathNotEmpty(path: Text)
    ensures IsSafeZipPath(path) ==> path != []
  {
  }

  lemma EntryKeepsSane(codec: Codec, zip: Text, eocd: nat, s: Reading)
    requires eocd <= |zip| && Sane(s) && ReadEntry(codec, zip, eocd, s).Ok?
    ensures Sane(ReadEntry(codec, zip, eocd, s).value)
  {
    hide WithFolder, WithFile, IsSafeZipPath, EntryFolders, Contents, WellFormed, HeaderAt, TotalSize;
    EntryEffect(codec, zip, eocd, s);
    var h := HeaderAt(zip, eocd, s.at).value;
    var r := ReadEntry(codec, zip, eocd, s).value;
    forall f | f in r.tree.folders
      ensures |f| + 1 < 0x10000
    {
      if f in EntryFolders(h) {
        EntryFoldersAreShort(h, f);
      }
    }
    if NamesFolder(h.name) {
      FolderKeepsWellFormed(s.tree, PathOf(h));
    } else {
      FileKeepsWellFormed(s.tree, PathOf(h), Contents(codec, zip, h).value);
      TotalSizeWith(s.tree.files, PathOf(h), Contents(codec, zip, h).value);
    }
  }

  lemma {:induction false} EntriesKeepSane(codec: Codec, zip: Text, eocd: nat, n: nat, s: Reading)
    requires eocd <= |zip| && Sane(s) && ReadEntries(codec, zip, eocd, n, s).Ok?
    ensures Sane(ReadEntries(codec, zip, eocd, n, s).value)
    decreases n
  {
    hide ReadEntry, Sane;
    if n > 0 {
      EntryKeepsSane(codec, zip, eocd, s);
      EntriesKeepSane(codec, zip, eocd, n - 1, ReadEntry(codec, zip, eocd, s).value);
    }
  }

  /** Whatever the octets are: a tree that is read has only safe paths with all their folders, within the limits. */
  lemma ReadGivesSafeTree(codec: Codec, zip: Text, t: Tree)
    requires Read(codec, zip) == Ok(t)
    ensures WellFormed(t) && ShortPaths(t) && TotalSize(t.files) <= MAX_TOTAL_UNCOMPRESSED && |zip| <= MAX_ZIP_BYTES
  {
    hide ReadEntries, WellFormed, FindDirectory, ShortPaths, TotalSize;
    var d := FindDirectory(zip).value;
    EmptyIsSane(d.at);
    EntriesKeepSane(codec, zip, d.eocd, d.entries, Reading(d.at, 0, EMPTY));
  }

  lemma EmptyIsSane(at: nat)
    ensures Sane(Reading(at, 0, EMPTY))
  {
  }

  // ---- The tree is what the directory lists -------------------------------

  /** The `n` directory entries from `at` on, as far as they can be read. */
  function Headers(zip: Text, eocd: nat, at: nat, n: nat): seq<Header>
    requires eocd <= |zip|
    decreases n
  {
    if n == 0 || HeaderAt(zip, eocd, at).Err? then []
    else
      var h := HeaderAt(zip, eocd, at).value;
      [h] + Headers(zip, eocd, After(at, h), n - 1)
  }

  /** `path` is that of a file entry. */
  predicate Lists(listed: seq<Header>, path: Text) {
    exists k :: 0 <= k < |listed| && !NamesFolder(listed[k].name) && PathOf(listed[k]) == path
  }

  predicate ListsFolder(listed: seq<Header>, folder: Text) {
    exists k :: 0 <= k < |listed| && folder in EntryFolders(listed[k])
  }

  /** No path is that of two file entries. */
  predicate Once(listed: seq<Header>) {
    forall j, k :: 0 <= j < k < |listed| && !NamesFolder(listed[j].name) && !NamesFolder(listed[k].name) ==>
      PathOf(listed[j]) != PathOf(listed[k])
  }

  /** A file entry, and the contents it has in the tree: what its data unpacks to. */
  predicate Stored(codec: Codec, zip: Text, h: Header, files: map<Text, Text>) {
    NamesFolder(h.name) || (PathOf(h) in files && Contents(codec, zip, h) == Ok(files[PathOf(h)]))
  }

  /** `after` is `before` with what is listed, and with nothing else. */
  ghost predicate Adds(codec: Codec, zip: Text, listed: seq<Header>, before: Tree, after: Tree) {
    (forall p :: p in before.files ==> p in after.files && after.files[p] == before.files[p] && !Lists(listed, p)) &&
    (forall p :: p in after.files ==> p in before.files || Lists(listed, p)) &&
    (forall k :: 0 <= k < |listed| ==> Stored(codec, zip, listed[k], after.files)) &&
    (forall f :: f in after.folders <==> f in before.folders || ListsFolder(listed, f)) &&
    Once(listed)
  }

  lemma ListsStep(h: Header, rest: seq<Header>, p: Text)
    ensures Lists([h] + rest, p) <==> (!NamesFolder(h.name) && PathOf(h) == p) || Lists(rest, p)
    ensures ListsFolder([h] + rest, p) <==> p in EntryFolders(h) || ListsFolder(rest, p)
  {
    hide EntryFolders, PathOf, NamesFolder;
    var all := [h] + rest;
    assert all[0] == h && forall k :: 0 <= k < |rest| ==> all[k + 1] == rest[k];
  }

  lemma OnceStep(h: Header, rest: seq<Header>)
    requires Once(rest) && (!NamesFolder(h.name) ==> !Lists(rest, PathOf(h)))
    ensures Once([h] + rest)
  {
    hide PathOf, NamesFolder;
  }

  lemma AddsStep(codec: Codec, zip: Text, h: Header, rest: seq<Header>, before: Tree, between: Tree, after: Tree)
    requires Adds(codec, zip, rest, between, after)
    requires between.folders == before.folders + EntryFolders(h)
    requires if NamesFolder(h.name) then between.files == before.files
             else PathOf(h) !in before.files && Stored(codec, zip, h, between.files) &&
                  between.files == before.files[PathOf(h) := between.files[PathOf(h)]]
    ensures Adds(codec, zip, [h] + rest, before, after)
  {
    hide EntryFolders, PathOf, NamesFolder, Lists, ListsFolder, Once;
    forall p
      ensures Lists([h] + rest, p) <==> (!NamesFolder(h.name) && PathOf(h) == p) || Lists(rest, p)
      ensures ListsFolder([h] + rest, p) <==> p in EntryFolders(h) || ListsFolder(rest, p)
    {
      ListsStep(h, rest, p);
    }
    OnceStep(h, rest);
  }

  lemma NothingAdded(codec: Codec, zip: Text, t: Tree)
    ensures Adds(codec, zip, [], t, t)
  {
  }

  lemma {:induction false} EntriesAdd(codec: Codec, zip: Text, eocd: nat, n: nat, s: Reading)
    requires eocd <= |zip| && ReadEntries(codec, zip, eocd, n, s).Ok?
    ensures var listed := Headers(zip, eocd, s.at, n);
            |listed| == n && Adds(codec, zip, listed, s.tree, ReadEntries(codec, zip, eocd, n, s).value.tree)
    decreases n
  {
    hide ReadEntry, Adds, HeaderAt, IsSafeZipPath, WithFile, EntryFolders, Contents, PathOf, Canonical;
    if n == 0 {
      NothingAdded(codec, zip, s.tree);
    } else {
      EntryEffect(codec, zip, eocd, s);
      var h := HeaderAt(zip, eocd, s.at).value;
      var r := ReadEntry(codec, zip, eocd, s).value;
      EntriesAdd(codec, zip, eocd, n - 1, r);
      AddsStep(codec, zip, h, Headers(zip, eocd, r.at, n - 1), s.tree, r.tree, ReadEntries(codec, zip, eocd, n, s).value.tree);
    }
  }

  /** The tree that is read is exactly what its directory lists, each file once and with its size and CRC. */
  lemma ReadGivesWhatIsListed(codec: Codec, zip: Text, t: Tree)
    requires Read(codec, zip) == Ok(t)
    ensures FindDirectory(zip).Ok? &&
            var d := FindDirectory(zip).value;
            var listed := Headers(zip, d.eocd, d.at, d.entries);
            |listed| == d.entries && Adds(codec, zip, listed, EMPTY, t)
  {
    hide ReadEntries, FindDirectory, Adds, Headers;
    var d := FindDirectory(zip).value;
    EntriesAdd(codec, zip, d.eocd, d.entries, Reading(d.at, 0, EMPTY));
  }

  // ---- Exactly when a tree survives ---------------------------------------

  lemma {:induction false} RecordsTakeRoom(codec: Codec, stamp: Stamp, entries: seq<Entry>)
    ensures var w := Written(codec, stamp, entries);
            |w.0| + |w.1| >= 76 * |entries|
    decreases |entries|
  {
    hide LocalRecord, CentralRecord, Written;
    if entries == [] {
      NothingWritten(codec, stamp, entries);
      assert entries[..0] == entries;
    } else {
      var n := |entries| - 1;
      RecordsTakeRoom(codec, stamp, entries[..n]);
      WrittenStep(codec, stamp, entries, n);
      assert entries[..n + 1] == entries;
      var before := Written(codec, stamp, entries[..n]);
      LocalLength(codec, stamp, entries[n]);
      CentralLength(codec, stamp, entries[n], Cast32(|before.0|));
    }
  }

  /** A file that is short enough tells the number of its entries truly. */
  lemma EntriesCounted(codec: Codec, stamp: Stamp, t: Tree)
    requires FindDirectory(ZipOf(codec, stamp, t)).Ok?
    ensures |Entries(t)| <= MAX_ENTRIES
  {
    hide Entries, EndRecord, ZipOf, OccursAt, Get16, Get32, FindEnd, Written;
    var zip, entries := ZipOf(codec, stamp, t), Entries(t);
    ZipParts(codec, stamp, t);
    assert entries[..|entries|] == entries;
    var all := Written(codec, stamp, entries);
    RecordsTakeRoom(codec, stamp, entries);
    OccursAtEnd(all.0 + all.1, EndRecord(Cast16(|entries|), Cast32(|all.1|), Cast32(|all.0|)));
    EndReads(Cast16(|entries|), Cast32(|all.1|), Cast32(|all.0|), zip, |zip| - 22);
    EndAtEnd(zip);
  }

  /** The zip file of an empty tree is refused: it does not start with a local header. */
  lemma EmptyTreeNotRead(codec: Codec, stamp: Stamp)
    ensures Read(codec, ZipOf(codec, stamp, EMPTY)) == Err(NotZip)
  {
    hide EndRecord, Get16, Get32;
    ZipParts(codec, stamp, EMPTY);
    NothingWritten(codec, stamp, Entries(EMPTY));
    assert Entries(EMPTY) == [];
    var zip := ZipOf(codec, stamp, EMPTY);
    assert zip == EndRecord(0, 0, 0);
    OccursAtEnd([], zip);
    assert [] + zip == zip;
    EndReads(0, 0, 0, zip, 0);
  }

  /** A tree survives being written and read exactly when it is one the format and the limits allow. */
  lemma ReadGivesBackTreeIff(codec: Codec, stamp: Stamp, t: Tree)
    requires Lossless(codec)
    ensures Read(codec, ZipOf(codec, stamp, t)) == Ok(t) <==> WellFormed(t) && t != EMPTY && WithinLimits(codec, stamp, t)
  {
    hide Read, ZipOf, WellFormed, Entries, TotalSize;
    if Read(codec, ZipOf(codec, stamp, t)) == Ok(t) {
      ReadGivesSafeTree(codec, ZipOf(codec, stamp, t), t);
      ReadGivesWhatIsListed(codec, ZipOf(codec, stamp, t), t);
      EntriesCounted(codec, stamp, t);
      EmptyTreeNotRead(codec, stamp);
    }
    if WellFormed(t) && t != EMPTY && WithinLimits(codec, stamp, t) {
      ReadGivesBackTree(codec, stamp, t);
    }
  }
}
