/** Writing a tree as a zip file (cari.cpp, WriteZip). */
module ZipWrite {
  import opened Octets
  import opened CariTree
  import opened TextOrder

  type Word16 = x: nat | x < 0x10000
  type Word32 = x: nat | x < 0x1_0000_0000

  const LOCAL_HEADER_SIG: Word32 := 0x04034b50
  const CENTRAL_HEADER_SIG: Word32 := 0x02014b50
  const END_OF_CENTRAL_DIR_SIG: Word32 := 0x06054b50

  /** A cast of a size_t to uint16_t or uint32_t. */
  function Cast16(n: nat): Word16 {
    n % 0x10000
  }

  function Cast32(n: nat): Word32 {
    n % 0x1_0000_0000
  }

  // Least significant octet first.

  function Get16(b: Text, at: nat): Word16
    requires at + 2 <= |b|
  {
    b[at] as int + 0x100 * b[at + 1] as int
  }

  function Get32(b: Text, at: nat): Word32
    requires at + 4 <= |b|
  {
    Get16(b, at) + 0x10000 * Get16(b, at + 2)
  }

  function Put16(v: Word16): Text {
    [(v % 0x100) as char, (v / 0x100) as char]
  }

  function Put32(v: Word32): Text {
    Put16(v % 0x10000) + Put16(v / 0x10000)
  }

  /** `rest` with a 16-bit or a 32-bit field before it. */
  function Half(v: Word16, rest: Text): Text {
    Put16(v) + rest
  }

  function Word(v: Word32, rest: Text): Text {
    Put32(v) + rest
  }

  lemma ReadHalf(text: Text, v: Word16, rest: Text, at: nat)
    requires OccursAt(text, Half(v, rest), at)
    ensures at + 2 <= |text| && Get16(text, at) == v && OccursAt(text, rest, at + 2)
  {
    OccursSplit(text, Put16(v), rest, at);
    assert text[at] == Put16(v)[0] && text[at + 1] == Put16(v)[1];
  }

  lemma ReadWord(text: Text, v: Word32, rest: Text, at: nat)
    requires OccursAt(text, Word(v, rest), at)
    ensures at + 4 <= |text| && Get32(text, at) == v && OccursAt(text, rest, at + 4)
  {
    hide Put16, Get16;
    OccursSplit(text, Put32(v), rest, at);
    OccursSplit(text, Put16(v % 0x10000), Put16(v / 0x10000), at);
    PutLengths(v % 0x10000, v);
    assert Put16(v % 0x10000) + [] == Put16(v % 0x10000) && Put16(v / 0x10000) + [] == Put16(v / 0x10000);
    ReadHalf(text, v % 0x10000, [], at);
    PutLengths(v / 0x10000, v);
    ReadHalf(text, v / 0x10000, [], at + 2);
  }

  lemma PutLengths(v: Word16, w: Word32)
    ensures |Put16(v)| == 2 && |Put32(w)| == 4
  {
  }

  // ---- zlib, and the records ----------------------------------------------

  datatype Inflated = StreamEnd(out: Text) | BufError | Failed

  /** zlib: raw deflate, inflate into a buffer of a given size, and CRC-32. */
  datatype Codec = Codec(deflate: Text -> Text, inflate: (Text, nat) -> Inflated, crc: Text -> Word32)

  /** What is assumed of zlib: inflating what deflate gave, into a buffer of the right size, gives it back. */
  ghost predicate Lossless(codec: Codec) {
    forall d: Text :: codec.inflate(codec.deflate(d), |d|) == StreamEnd(d) ||
                      (d == [] && codec.inflate(codec.deflate(d), 0) == BufError)
  }

  /** The MS-DOS time and date that every record carries. */
  datatype Stamp = Stamp(time: Word16, date: Word16)

  datatype Entry = Entry(name: Text, data: Text)

  predicate NamesFolder(name: Text) {
    name != [] && name[|name| - 1] == '/'
  }

  function Body(codec: Codec, e: Entry): Text {
    if NamesFolder(e.name) then [] else codec.deflate(e.data)
  }

  function Method(e: Entry): Word16 {
    if NamesFolder(e.name) then 0 else 8
  }

  function LocalRecord(codec: Codec, stamp: Stamp, e: Entry): Text {
    Word(LOCAL_HEADER_SIG, Half(20, Half(0x0800, Half(Method(e), Half(stamp.time, Half(stamp.date,
      Word(codec.crc(e.data), Word(Cast32(|Body(codec, e)|), Word(Cast32(|e.data|),
        Half(Cast16(|e.name|), Half(0, e.name + Body(codec, e))))))))))))
  }

  function CentralRecord(codec: Codec, stamp: Stamp, e: Entry, offset: Word32): Text {
    Word(CENTRAL_HEADER_SIG, Half(20, Half(20, Half(0x0800, Half(Method(e), Half(stamp.time, Half(stamp.date,
      Word(codec.crc(e.data), Word(Cast32(|Body(codec, e)|), Word(Cast32(|e.data|),
        Half(Cast16(|e.name|), Half(0, Half(0, Half(0, Half(0,
          Word(if NamesFolder(e.name) then 0x10 else 0, Word(offset, e.name)))))))))))))))))
  }

  function EndRecord(entries: Word16, centralSize: Word32, centralOffset: Word32): Text {
    Word(END_OF_CENTRAL_DIR_SIG, Half(0, Half(0, Half(entries, Half(entries,
      Word(centralSize, Word(centralOffset, Half(0, []))))))))
  }

  /** The two buffers after these entries: the local records, and the central directory. */
  function Written(codec: Codec, stamp: Stamp, entries: seq<Entry>): (Text, Text) {
    if entries == [] then ([], [])
    else
      var before := Written(codec, stamp, entries[..|entries| - 1]);
      var e := entries[|entries| - 1];
      (before.0 + LocalRecord(codec, stamp, e), before.1 + CentralRecord(codec, stamp, e, Cast32(|before.0|)))
  }

  function FolderEntries(folders: seq<Text>): (r: seq<Entry>)
    ensures |r| == |folders|
  {
    seq(|folders|, k requires 0 <= k < |folders| => Entry(folders[k] + "/", []))
  }

  function FileEntries(paths: seq<Text>, files: map<Text, Text>): (r: seq<Entry>)
    requires forall p :: p in paths ==> p in files
    ensures |r| == |paths|
  {
    seq(|paths|, k requires 0 <= k < |paths| => Entry(paths[k], files[paths[k]]))
  }

  /** Every folder, with a '/' at its end, then every file, each in path order. */
  ghost function Entries(t: Tree): (r: seq<Entry>)
    ensures |r| == |t.folders| + |t.files|
  {
    FolderEntries(Sorted(t.folders)) + FileEntries(Sorted(t.files.Keys), t.files)
  }

  ghost function ZipOf(codec: Codec, stamp: Stamp, t: Tree): Text {
    var entries := Entries(t);
    var buffers := Written(codec, stamp, entries);
    buffers.0 + buffers.1 + EndRecord(Cast16(|entries|), Cast32(|buffers.1|), Cast32(|buffers.0|))
  }

  method PickLeast(s: set<Text>) returns (m: Text)
    requires s != {}
    ensures LeastIn(m, s) && Sorted(s) == [m] + Sorted(s - {m})
  {
    HasLeast(s);
    m :| m in s && forall x :: x in s && x != m ==> Less(m, x);
    SortedStep(s, m);
  }

  lemma FolderEntriesStep(before: seq<Entry>, folder: Text, rest: seq<Text>)
    ensures before + FolderEntries([folder] + rest) == before + [Entry(folder + "/", [])] + FolderEntries(rest)
  {
  }

  lemma FileEntriesStep(before: seq<Entry>, path: Text, rest: seq<Text>, files: map<Text, Text>)
    requires path in files && forall p :: p in rest ==> p in files
    ensures before + FileEntries([path] + rest, files) == before + [Entry(path, files[path])] + FileEntries(rest, files)
  {
  }

  /** The first loop of WriteZip. */
  method ListFolders(all: set<Text>) returns (entries: seq<Entry>)
    ensures entries == FolderEntries(Sorted(all))
  {
    hide LeastIn, FolderEntries;
    entries := [];
    var folders := all;
    NoFolders();
    while folders != {}
      invariant FolderEntries(Sorted(all)) == entries + FolderEntries(Sorted(folders))
      decreases |folders|
    {
      var folder := PickLeast(folders);
      FolderEntriesStep(entries, folder, Sorted(folders - {folder}));
      entries := entries + [Entry(folder + "/", [])];
      folders := folders - {folder};
    }
  }

  lemma NoFolders()
    ensures FolderEntries(Sorted({})) == [] && forall files :: FileEntries(Sorted({}), files) == []
  {
  }

  /** The second one. */
  method ListFiles(files: map<Text, Text>) returns (entries: seq<Entry>)
    ensures entries == FileEntries(Sorted(files.Keys), files)
  {
    hide LeastIn, FileEntries;
    entries := [];
    var paths := files.Keys;
    NoFolders();
    while paths != {}
      invariant paths <= files.Keys
      invariant FileEntries(Sorted(files.Keys), files) == entries + FileEntries(Sorted(paths), files)
      decreases |paths|
    {
      var path := PickLeast(paths);
      assert path in paths;
      FileEntriesStep(entries, path, Sorted(paths - {path}), files);
      entries := entries + [Entry(path, files[path])];
      paths := paths - {path};
    }
  }

  lemma WrittenStep(codec: Codec, stamp: Stamp, entries: seq<Entry>, k: nat)
    requires k < |entries|
    ensures var before := Written(codec, stamp, entries[..k]);
            Written(codec, stamp, entries[..k + 1]) ==
            (before.0 + LocalRecord(codec, stamp, entries[k]),
             before.1 + CentralRecord(codec, stamp, entries[k], Cast32(|before.0|)))
  {
    hide LocalRecord, CentralRecord;
    assert entries[..k + 1][..k] == entries[..k];
  }

  /** A file without a name has no last octet to look at. */
  method WriteZip(codec: Codec, stamp: Stamp, t: Tree) returns (zip: Text)
    requires [] !in t.files
    ensures zip == ZipOf(codec, stamp, t)
  {
    hide LocalRecord, CentralRecord, EndRecord, FolderEntries, FileEntries, Written;
    var folders := ListFolders(t.folders);
    var files := ListFiles(t.files);
    var entries := folders + files;
    zip := [];
    var central: Text := [];
    NothingWritten(codec, stamp, entries);
    for k := 0 to |entries|
      invariant (zip, central) == Written(codec, stamp, entries[..k])
    {
      WrittenStep(codec, stamp, entries, k);
      var offset := Cast32(|zip|);
      zip := zip + LocalRecord(codec, stamp, entries[k]);
      central := central + CentralRecord(codec, stamp, entries[k], offset);
    }
    assert entries[..|entries|] == entries;
    var centralOffset := Cast32(|zip|);
    zip := zip + central;
    zip := zip + EndRecord(Cast16(|entries|), Cast32(|central|), centralOffset);
  }

  lemma NothingWritten(codec: Codec, stamp: Stamp, entries: seq<Entry>)
    ensures Written(codec, stamp, entries[..0]) == ([], [])
  {
  }
}
