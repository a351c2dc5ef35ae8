/** A zip file as its format describes it (sections 4.3.7, 4.3.12 and 4.3.16 of the .ZIP File Format Specification), with
    every field free: what ReadZip finds in the records of any writer. */
module ZipFormat {
  import opened Octets
  import opened CariPath
  import opened CariTree
  import opened ZipWrite
  import opened ZipRead
  import opened ZipRoundTrip
  import opened ZipSafety

  /** An entry of the central directory. */
  datatype Central = Central(madeBy: Word16, needed: Word16, flags: Word16, packing: Word16, stamp: Stamp, crc: Word32,
                             csize: Word32, usize: Word32, name: Text, extra: Text, comment: Text, disk: Word16,
                             internal: Word16, external: Word32, localOffset: Word32) {
    predicate Fits() {
      |name| < 0x10000 && |extra| < 0x10000 && |comment| < 0x10000
    }

    function Encode(): Text
      requires Fits()
    {
      Word(0x02014b50, Half(madeBy, Half(needed, Half(flags, Half(packing, Half(stamp.time, Half(stamp.date,
        Word(crc, Word(csize, Word(usize, Half(|name|, Half(|extra|, Half(|comment|, Half(disk, Half(internal,
          Word(external, Word(localOffset, name + extra + comment)))))))))))))))))
    }

    /** What the reader keeps of it. */
    function Kept(): Header
      requires Fits()
    {
      Header(flags, packing, crc, csize, usize, name, |extra|, |comment|, localOffset)
    }
  }

  /** The header before an entry's data; its fields need not agree with the directory. */
  datatype Local = Local(needed: Word16, flags: Word16, packing: Word16, stamp: Stamp, crc: Word32, csize: Word32,
                         usize: Word32, name: Text, extra: Text) {
    predicate Fits() {
      |name| < 0x10000 && |extra| < 0x10000
    }

    function Encode(): Text
      requires Fits()
    {
      Word(0x04034b50, Half(needed, Half(flags, Half(packing, Half(stamp.time, Half(stamp.date, Word(crc, Word(csize,
        Word(usize, Half(|name|, Half(|extra|, name + extra)))))))))))
    }
  }

  datatype End = End(disk: Word16, startDisk: Word16, here: Word16, entries: Word16, size: Word32, offset: Word32,
                     comment: Text) {
    predicate Fits() {
      |comment| < 0x10000
    }

    function Encode(): Text
      requires Fits()
    {
      Word(0x06054b50, Half(disk, Half(startDisk, Half(here, Half(entries, Word(size, Word(offset,
        Half(|comment|, comment))))))))
    }
  }

  // ---- Reading one record -------------------------------------------------

  lemma CentralSize(r: Central)
    requires r.Fits()
    ensures |r.Encode()| == 46 + |r.name| + |r.extra| + |r.comment|
  {
  }

  /** The reader keeps the fields of a directory entry, and goes on right behind its name, extra field and comment. */
  lemma CentralIsRead(r: Central, zip: Text, eocd: nat, at: nat)
    requires r.Fits() && OccursAt(zip, r.Encode(), at) && at + |r.Encode()| <= eocd <= |zip|
    ensures HeaderAt(zip, eocd, at) == Ok(r.Kept()) && After(at, r.Kept()) == at + |r.Encode()|
  {
    hide Half, Word, Get16, Get32, OccursAt;
    var tail := r.name + r.extra + r.comment;
    var r14 := Word(r.external, Word(r.localOffset, tail));
    var r12 := Half(r.disk, Half(r.internal, r14));
    var r9 := Half(|r.name|, Half(|r.extra|, Half(|r.comment|, r12)));
    var r6 := Word(r.crc, Word(r.csize, Word(r.usize, r9)));
    var r4 := Half(r.stamp.time, Half(r.stamp.date, r6));
    var r3 := Half(r.packing, r4);
    ReadWord(zip, 0x02014b50, Half(r.madeBy, Half(r.needed, Half(r.flags, r3))), at);
    ReadHalf(zip, r.madeBy, Half(r.needed, Half(r.flags, r3)), at + 4);
    ReadHalf(zip, r.needed, Half(r.flags, r3), at + 6);
    ReadHalf(zip, r.flags, r3, at + 8);
    ReadHalf(zip, r.packing, r4, at + 10);
    ReadHalf(zip, r.stamp.time, Half(r.stamp.date, r6), at + 12);
    ReadHalf(zip, r.stamp.date, r6, at + 14);
    ReadWord(zip, r.crc, Word(r.csize, Word(r.usize, r9)), at + 16);
    ReadWord(zip, r.csize, Word(r.usize, r9), at + 20);
    ReadWord(zip, r.usize, r9, at + 24);
    ReadHalf(zip, |r.name|, Half(|r.extra|, Half(|r.comment|, r12)), at + 28);
    ReadHalf(zip, |r.extra|, Half(|r.comment|, r12), at + 30);
    ReadHalf(zip, |r.comment|, r12, at + 32);
    ReadHalf(zip, r.disk, Half(r.internal, r14), at + 34);
    ReadHalf(zip, r.internal, r14, at + 36);
    ReadWord(zip, r.external, Word(r.localOffset, tail), at + 38);
    ReadWord(zip, r.localOffset, tail, at + 42);
    OccursSplit(zip, r.name + r.extra, r.comment, at + 46);
    OccursSplit(zip, r.name, r.extra, at + 46);
    OccursSlice(zip, r.name, at + 46);
    CentralSize(r);
  }

  lemma LocalIsRead(r: Local, packed: Text, zip: Text, at: nat)
    requires r.Fits() && OccursAt(zip, r.Encode() + packed, at)
    ensures at + 30 <= |zip| && Get32(zip, at) == 0x04034b50
    ensures Get16(zip, at + 26) == |r.name| && Get16(zip, at + 28) == |r.extra|
    ensures var dataAt := at + 30 + |r.name| + |r.extra|;
            dataAt + |packed| <= |zip| && zip[dataAt..dataAt + |packed|] == packed
  {
    LocalSize(r);
    hide Half, Word, Get16, Get32, OccursAt;
    OccursSplit(zip, r.Encode(), packed, at);
    var r9 := Half(|r.name|, Half(|r.extra|, r.name + r.extra));
    var r6 := Word(r.crc, Word(r.csize, Word(r.usize, r9)));
    var r4 := Half(r.stamp.time, Half(r.stamp.date, r6));
    var r3 := Half(r.packing, r4);
    ReadWord(zip, 0x04034b50, Half(r.needed, Half(r.flags, r3)), at);
    ReadHalf(zip, r.needed, Half(r.flags, r3), at + 4);
    ReadHalf(zip, r.flags, r3, at + 6);
    ReadHalf(zip, r.packing, r4, at + 8);
    ReadHalf(zip, r.stamp.time, Half(r.stamp.date, r6), at + 10);
    ReadHalf(zip, r.stamp.date, r6, at + 12);
    ReadWord(zip, r.crc, Word(r.csize, Word(r.usize, r9)), at + 14);
    ReadWord(zip, r.csize, Word(r.usize, r9), at + 18);
    ReadWord(zip, r.usize, r9, at + 22);
    ReadHalf(zip, |r.name|, Half(|r.extra|, r.name + r.extra), at + 26);
    ReadHalf(zip, |r.extra|, r.name + r.extra, at + 28);
    OccursSlice(zip, packed, at + 30 + |r.name| + |r.extra|);
  }

  lemma LocalSize(r: Local)
    requires r.Fits()
    ensures |r.Encode()| == 30 + |r.name| + |r.extra|
  {
  }

  lemma EndIsRead(r: End, zip: Text, at: nat)
    requires r.Fits() && OccursAt(zip, r.Encode(), at)
    ensures at + 22 + |r.comment| <= |zip| && Get32(zip, at) == 0x06054b50
    ensures Get16(zip, at + 4) == r.disk && Get16(zip, at + 6) == r.startDisk
    ensures Get16(zip, at + 8) == r.here && Get16(zip, at + 10) == r.entries
    ensures Get32(zip, at + 12) == r.size && Get32(zip, at + 16) == r.offset
  {
    hide Half, Word, Get16, Get32, OccursAt;
    var r7 := Half(|r.comment|, r.comment);
    var r5 := Word(r.size, Word(r.offset, r7));
    var r3 := Half(r.here, Half(r.entries, r5));
    ReadWord(zip, 0x06054b50, Half(r.disk, Half(r.startDisk, r3)), at);
    ReadHalf(zip, r.disk, Half(r.startDisk, r3), at + 4);
    ReadHalf(zip, r.startDisk, r3, at + 6);
    ReadHalf(zip, r.here, Half(r.entries, r5), at + 8);
    ReadHalf(zip, r.entries, r5, at + 10);
    ReadWord(zip, r.size, Word(r.offset, r7), at + 12);
    ReadWord(zip, r.offset, r7, at + 16);
    ReadHalf(zip, |r.comment|, r.comment, at + 20);
    OccursWithin(zip, r.comment, at + 22);
  }

  // ---- The directory ------------------------------------------------------

  predicate AllFit(records: seq<Central>) {
    forall k :: 0 <= k < |records| ==> records[k].Fits()
  }

  function DirectoryOf(records: seq<Central>): Text
    requires AllFit(records)
  {
    if records == [] then [] else records[0].Encode() + DirectoryOf(records[1..])
  }

  function AllKept(records: seq<Central>): (r: seq<Header>)
    requires AllFit(records)
    ensures |r| == |records|
  {
    if records == [] then [] else [records[0].Kept()] + AllKept(records[1..])
  }

  /** Whatever names, extra fields and comments the entries have, the reader walks from each to the next. */
  lemma {:induction false} DirectoryIsRead(records: seq<Central>, zip: Text, eocd: nat, at: nat)
    requires AllFit(records) && OccursAt(zip, DirectoryOf(records), at) && at + |DirectoryOf(records)| <= eocd <= |zip|
    ensures Headers(zip, eocd, at, |records|) == AllKept(records)
    decreases |records|
  {
    hide OccursAt, HeaderAt, After, Central.Encode, Central.Kept;
    if records != [] {
      OccursSplit(zip, records[0].Encode(), DirectoryOf(records[1..]), at);
      CentralIsRead(records[0], zip, eocd, at);
      DirectoryIsRead(records[1..], zip, eocd, at + |records[0].Encode()|);
    }
  }

  /** No end record starts behind `at`, as far back as one is looked for. */
  predicate NoLaterEnd(zip: Text, at: nat) {
    forall k :: at < k && k + 22 <= |zip| ==> Get32(zip, k) != 0x06054b50
  }

  /** The end record with its comment at the end of the file says how many entries there are and where; a file of several
      parts, with more than 4096 entries or a directory that overlaps the end record is refused. */
  lemma EndIsFound(front: Text, r: End)
    requires r.Fits() && |front + r.Encode()| <= 4194304 && NoLaterEnd(front + r.Encode(), |front|)
    requires |front| >= 4 && Get32(front, 0) == 0x04034b50
    ensures FindDirectory(front + r.Encode()) ==
            if r.disk != 0 || r.startDisk != 0 || r.here != r.entries then Err(MultiPart)
            else if r.entries > 4096 then Err(TooManyEntries)
            else if r.offset + r.size > |front| then Err(DirectoryOutOfRange)
            else Ok(ZipRead.Directory(|front|, r.entries, r.offset))
  {
    hide OccursAt, FindEnd, NoLaterEnd, Half, Word, Get16, End.Encode, FindDirectory;
    OccursAtEnd(front, r.Encode());
    EndSize(r);
    FirstWord(front, r.Encode());
    hide Get32;
    VerdictAt(front + r.Encode(), |front|, r);
  }

  lemma VerdictAt(zip: Text, at: nat, r: End)
    requires r.Fits() && OccursAt(zip, r.Encode(), at) && |zip| == at + 22 + |r.comment| <= 4194304
    requires NoLaterEnd(zip, at) && Get32(zip, 0) == 0x04034b50
    ensures FindDirectory(zip) ==
            if r.disk != 0 || r.startDisk != 0 || r.here != r.entries then Err(MultiPart)
            else if r.entries > 4096 then Err(TooManyEntries)
            else if r.offset + r.size > at then Err(DirectoryOutOfRange)
            else Ok(ZipRead.Directory(at, r.entries, r.offset))
  {
    hide OccursAt, FindEnd, NoLaterEnd, Get16, Get32, End.Encode;
    EndIsRead(r, zip, at);
    LastEnd(zip, at);
  }

  lemma FirstWord(front: Text, more: Text)
    requires |front| >= 4
    ensures Get32(front + more, 0) == Get32(front, 0)
  {
  }

  lemma EndSize(r: End)
    requires r.Fits()
    ensures |r.Encode()| == 22 + |r.comment|
  {
  }

  lemma LastEnd(zip: Text, at: nat)
    requires at + 22 <= |zip| <= at + 65557 && Get32(zip, at) == 0x06054b50 && NoLaterEnd(zip, at)
    ensures FindEnd(zip, |zip| - 21, if |zip| > 65557 then |zip| - 65557 else 0) == Some(at)
  {
    hide Get32;
  }

  // ---- The contents -------------------------------------------------------

  /** What packed octets of this size unpack to: themselves when stored, and what zlib makes of them when deflated. */
  predicate UnpacksTo(codec: Codec, packing: Word16, packed: Text, data: Text) {
    if packing == 0 then data == packed
    else codec.inflate(packed, |data|) == StreamEnd(data) || (data == [] && codec.inflate(packed, 0) == BufError)
  }

  /** The contents of an entry are what its data unpacks to, behind a local header with any name and extra field, if size
      and CRC are those of the directory. */
  lemma ContentsIff(codec: Codec, zip: Text, h: Header, r: Local, packed: Text, data: Text)
    requires r.Fits() && OccursAt(zip, r.Encode() + packed, h.localOffset) && |packed| == h.csize
    ensures Contents(codec, zip, h) == Ok(data) <==>
            UnpacksTo(codec, h.packing, packed, data) && |data| == h.usize && codec.crc(data) == h.crc
  {
    hide OccursAt, Get16, Get32;
    LocalIsRead(r, packed, zip, h.localOffset);
  }

  // ---- The writer writes the format ---------------------------------------

  lemma HalfAppend(v: Word16, rest: Text, more: Text)
    ensures Half(v, rest) + more == Half(v, rest + more)
  {
  }

  lemma WordAppend(v: Word32, rest: Text, more: Text)
    ensures Word(v, rest) + more == Word(v, rest + more)
  {
  }

  /** The records that the hub's own writer makes are of this format. */
  lemma CentralConforms(codec: Codec, stamp: Stamp, e: Entry, offset: Word32)
    requires |e.name| < 0x10000
    ensures CentralRecord(codec, stamp, e, offset) ==
            Central(20, 20, 0x0800, Method(e), stamp, codec.crc(e.data), Cast32(|Body(codec, e)|), Cast32(|e.data|), e.name,
                    [], [], 0, 0, if NamesFolder(e.name) then 0x10 else 0, offset).Encode()
  {
    hide Half, Word;
    assert e.name + [] + [] == e.name;
  }

  lemma LocalConforms(codec: Codec, stamp: Stamp, e: Entry)
    requires |e.name| < 0x10000
    ensures LocalRecord(codec, stamp, e) ==
            Local(20, 0x0800, Method(e), stamp, codec.crc(e.data), Cast32(|Body(codec, e)|), Cast32(|e.data|), e.name,
                  []).Encode() + Body(codec, e)
  {
    hide Half, Word;
    var body, r11 := Body(codec, e), Half(0, e.name);
    assert e.name + [] == e.name;
    var r10 := Half(|e.name|, r11);
    var r9 := Word(Cast32(|e.data|), r10);
    var r8 := Word(Cast32(|body|), r9);
    var r7 := Word(codec.crc(e.data), r8);
    var r6 := Half(stamp.date, r7);
    var r5 := Half(stamp.time, r6);
    var r4 := Half(Method(e), r5);
    var r3 := Half(0x0800, r4);
    HalfAppend(0, e.name, body);
    HalfAppend(|e.name|, r11, body);
    WordAppend(Cast32(|e.data|), r10, body);
    WordAppend(Cast32(|body|), r9, body);
    WordAppend(codec.crc(e.data), r8, body);
    HalfAppend(stamp.date, r7, body);
    HalfAppend(stamp.time, r6, body);
    HalfAppend(Method(e), r5, body);
    HalfAppend(0x0800, r4, body);
    HalfAppend(20, r3, body);
    WordAppend(0x04034b50, Half(20, r3), body);
  }

  lemma EndConforms(entries: Word16, size: Word32, offset: Word32)
    ensures EndRecord(entries, size, offset) == End(0, 0, entries, entries, size, offset, []).Encode()
  {
  }

  // ---- Which files are read -----------------------------------------------

  /** An entry that is not encrypted, not zip64, stored or deflated, with a safe path, and whose contents, if it is a
      file, can be read. */
  predicate Readable(codec: Codec, zip: Text, h: Header) {
    h.flags % 2 == 0 && h.csize != 0xFFFFFFFF && h.usize != 0xFFFFFFFF && h.localOffset != 0xFFFFFFFF &&
    (h.packing == 0 || h.packing == 8) && IsSafeZipPath(PathOf(h)) &&
    (NamesFolder(h.name) || Contents(codec, zip, h).Ok?)
  }

  /** What the file entries say they unpack to, together. */
  function FileSizes(listed: seq<Header>): nat {
    if listed == [] then 0 else (if NamesFolder(listed[0].name) then 0 else listed[0].usize) + FileSizes(listed[1..])
  }

  predicate AllReadable(codec: Codec, zip: Text, listed: seq<Header>) {
    forall k :: 0 <= k < |listed| ==> Readable(codec, zip, listed[k])
  }

  /** One entry is taken exactly if it can be read, fits, and is not the path of a file that is there already. */
  lemma EntryIff(codec: Codec, zip: Text, eocd: nat, s: Reading)
    requires eocd <= |zip|
    ensures ReadEntry(codec, zip, eocd, s).Ok? <==>
            HeaderAt(zip, eocd, s.at).Ok? &&
            var h := HeaderAt(zip, eocd, s.at).value;
            Readable(codec, zip, h) &&
            (!NamesFolder(h.name) ==> s.total + h.usize <= 16777216 && PathOf(h) !in s.tree.files)
  {
    hide HeaderAt, IsSafeZipPath, Contents, WithFolder, WithFile, PathOf, NamesFolder;
  }

  lemma OnceIff(h: Header, rest: seq<Header>)
    ensures Once([h] + rest) <==> Once(rest) && (!NamesFolder(h.name) ==> !Lists(rest, PathOf(h)))
  {
    hide PathOf, NamesFolder;
    var all := [h] + rest;
    assert all[0] == h && forall k :: 0 <= k < |rest| ==> all[k + 1] == rest[k];
    if Once(all) {
      forall j, k | 0 <= j < k < |rest| && !NamesFolder(rest[j].name) && !NamesFolder(rest[k].name)
        ensures PathOf(rest[j]) != PathOf(rest[k])
      {
        assert all[j + 1] == rest[j] && all[k + 1] == rest[k];
      }
    }
    if Once(rest) && (!NamesFolder(h.name) ==> !Lists(rest, PathOf(h))) {
      OnceStep(h, rest);
    }
  }

  /** What is to come can all be taken: it can be read, lists no file twice or again, and fits. */
  predicate Takes(codec: Codec, zip: Text, listed: seq<Header>, files: map<Text, Text>, total: nat) {
    AllReadable(codec, zip, listed) && Once(listed) && (forall p :: p in files ==> !Lists(listed, p)) &&
    total + FileSizes(listed) <= 16777216
  }

  lemma TakesStep(codec: Codec, zip: Text, h: Header, rest: seq<Header>, files: map<Text, Text>, data: Text, total: nat)
    ensures Takes(codec, zip, [h] + rest, files, total) <==>
            Readable(codec, zip, h) &&
            if NamesFolder(h.name) then Takes(codec, zip, rest, files, total)
            else PathOf(h) !in files && Takes(codec, zip, rest, files[PathOf(h) := data], total + h.usize)
  {
    hide PathOf, NamesFolder, Lists, Once, Readable;
    var all := [h] + rest;
    assert all[0] == h && all[1..] == rest && forall k :: 0 <= k < |rest| ==> all[k + 1] == rest[k];
    OnceIff(h, rest);
    forall p
      ensures Lists(all, p) <==> (!NamesFolder(h.name) && PathOf(h) == p) || Lists(rest, p)
    {
      ListsStep(h, rest, p);
    }
    assert AllReadable(codec, zip, all) <==> Readable(codec, zip, h) && AllReadable(codec, zip, rest) by {
      if AllReadable(codec, zip, all) {
        forall k | 0 <= k < |rest|
          ensures Readable(codec, zip, rest[k])
        {
          assert Readable(codec, zip, all[k + 1]);
        }
      }
    }
  }

  lemma {:induction false} EntriesIff(codec: Codec, zip: Text, eocd: nat, n: nat, s: Reading)
    requires eocd <= |zip| && s.total <= 16777216
    ensures var listed := Headers(zip, eocd, s.at, n);
            ReadEntries(codec, zip, eocd, n, s).Ok? <==> |listed| == n && Takes(codec, zip, listed, s.tree.files, s.total)
    decreases n
  {
    hide ReadEntry, HeaderAt, IsSafeZipPath, Contents, PathOf, NamesFolder, EntryFolders, Canonical, Readable, After;
    if n == 0 {
      NothingTaken(codec, zip, s);
    } else {
      EntryIff(codec, zip, eocd, s);
      if HeaderAt(zip, eocd, s.at).Ok? {
        var h := HeaderAt(zip, eocd, s.at).value;
        var rest := Headers(zip, eocd, After(s.at, h), n - 1);
        hide Takes, Headers;
        HeadersStep(zip, eocd, s.at, n);
        if ReadEntry(codec, zip, eocd, s).Ok? {
          EntryEffect(codec, zip, eocd, s);
          var r := ReadEntry(codec, zip, eocd, s).value;
          EntriesIff(codec, zip, eocd, n - 1, r);
          TakesStep(codec, zip, h, rest, s.tree.files, if NamesFolder(h.name) then [] else r.tree.files[PathOf(h)], s.total);
        } else {
          TakesStep(codec, zip, h, rest, s.tree.files, [], s.total);
          if !NamesFolder(h.name) {
            TakesFits(codec, zip, rest, s.tree.files[PathOf(h) := []], s.total + h.usize);
          }
        }
      }
    }
  }

  lemma TakesFits(codec: Codec, zip: Text, listed: seq<Header>, files: map<Text, Text>, total: nat)
    ensures Takes(codec, zip, listed, files, total) ==> total <= 16777216
  {
    hide FileSizes, AllReadable, Once, Lists;
  }

  lemma HeadersStep(zip: Text, eocd: nat, at: nat, n: nat)
    requires eocd <= |zip| && n > 0 && HeaderAt(zip, eocd, at).Ok?
    ensures var h := HeaderAt(zip, eocd, at).value;
            Headers(zip, eocd, at, n) == [h] + Headers(zip, eocd, After(at, h), n - 1)
  {
    hide HeaderAt, After;
  }

  lemma NothingTaken(codec: Codec, zip: Text, s: Reading)
    requires s.total <= 16777216
    ensures Takes(codec, zip, [], s.tree.files, s.total)
  {
  }

  /** ReadZip accepts a file exactly when its directory is found, can be walked to its end, lists only readable entries
      and no file twice, and the files unpack to at most 16 MiB; it then gives exactly what is listed. */
  lemma ReadIff(codec: Codec, zip: Text)
    ensures Read(codec, zip).Ok? <==>
            FindDirectory(zip).Ok? &&
            var d := FindDirectory(zip).value;
            var listed := Headers(zip, d.eocd, d.at, d.entries);
            |listed| == d.entries && AllReadable(codec, zip, listed) && Once(listed) && FileSizes(listed) <= 16777216
  {
    hide ReadEntries, Headers, FindDirectory, AllReadable, Once, FileSizes, Lists;
    if FindDirectory(zip).Ok? {
      var d := FindDirectory(zip).value;
      EntriesIff(codec, zip, d.eocd, d.entries, Reading(d.at, 0, EMPTY));
    }
  }

  /** An entry of a zip file: its records, its data, and the contents that data stands for. */
  datatype Member = Member(central: Central, local: Local, packed: Text, data: Text)

  /** The entry is one the reader supports, and if it is a file, its data is where the directory says. */
  predicate Supported(codec: Codec, zip: Text, m: Member) {
    var r := m.central;
    r.Fits() && r.flags % 2 == 0 && r.csize != 0xFFFFFFFF && r.usize != 0xFFFFFFFF && r.localOffset != 0xFFFFFFFF &&
    (r.packing == 0 || r.packing == 8) && IsSafeZipPath(PathOf(r.Kept())) &&
    (NamesFolder(r.name) ||
     (m.local.Fits() && OccursAt(zip, m.local.Encode() + m.packed, r.localOffset) && |m.packed| == r.csize &&
      UnpacksTo(codec, r.packing, m.packed, m.data) && |m.data| == r.usize && codec.crc(m.data) == r.crc))
  }

  predicate AllSupported(codec: Codec, zip: Text, members: seq<Member>) {
    forall k :: 0 <= k < |members| ==> Supported(codec, zip, members[k])
  }

  function Centrals(members: seq<Member>): (r: seq<Central>)
    ensures |r| == |members|
  {
    if members == [] then [] else [members[0].central] + Centrals(members[1..])
  }

  lemma {:induction false} KeptOf(codec: Codec, zip: Text, members: seq<Member>, k: nat)
    requires AllSupported(codec, zip, members) && k < |members|
    ensures AllFit(Centrals(members)) && AllKept(Centrals(members))[k] == members[k].central.Kept()
    decreases |members|
  {
    hide Supported, Central.Kept;
    SupportedFits(codec, zip, members);
    if k > 0 {
      KeptOf(codec, zip, members[1..], k - 1);
    }
  }

  lemma {:induction false} SupportedFits(codec: Codec, zip: Text, members: seq<Member>)
    requires AllSupported(codec, zip, members)
    ensures AllFit(Centrals(members))
    decreases |members|
  {
    if members != [] {
      assert Supported(codec, zip, members[0]);
      SupportedFits(codec, zip, members[1..]);
      assert Centrals(members)[1..] == Centrals(members[1..]);
    }
  }

  lemma SupportedIsReadable(codec: Codec, zip: Text, m: Member)
    requires Supported(codec, zip, m)
    ensures Readable(codec, zip, m.central.Kept())
    ensures !NamesFolder(m.central.name) ==> Contents(codec, zip, m.central.Kept()) == Ok(m.data)
  {
    hide Contents, UnpacksTo, OccursAt, IsSafeZipPath, Local.Encode;
    if !NamesFolder(m.central.name) {
      ContentsIff(codec, zip, m.central.Kept(), m.local, m.packed, m.data);
    }
  }

  /** A whole zip file: anything up to `end`, with the directory of these members somewhere in it. */
  predicate IsZip(codec: Codec, front: Text, end: End, members: seq<Member>) {
    end.Fits() && end.disk == 0 && end.startDisk == 0 && end.here == end.entries == |members| &&
    |front + end.Encode()| <= 4194304 && |members| <= 4096 && NoLaterEnd(front + end.Encode(), |front|) &&
    |front| >= 4 && Get32(front, 0) == 0x04034b50 && end.offset + end.size <= |front| &&
    AllSupported(codec, front + end.Encode(), members) && AllFit(Centrals(members)) &&
    OccursAt(front, DirectoryOf(Centrals(members)), end.offset)
  }

  /** Every zip file of the format, whoever wrote it, in which no file is listed twice and the files unpack to at most
      16 MiB, is read: as exactly its files, each with its contents, and the folders above them and those listed. */
  lemma AnyZipIsRead(codec: Codec, front: Text, end: End, members: seq<Member>)
    requires IsZip(codec, front, end, members)
    requires var listed := AllKept(Centrals(members)); Once(listed) && FileSizes(listed) <= 16777216
    ensures var listed := AllKept(Centrals(members));
            Read(codec, front + end.Encode()).Ok? &&
            var t := Read(codec, front + end.Encode()).value;
            (forall k :: 0 <= k < |members| && !NamesFolder(members[k].central.name) ==>
               var path := PathOf(members[k].central.Kept()); path in t.files && t.files[path] == members[k].data) &&
            (forall path :: path in t.files ==> Lists(listed, path)) &&
            (forall folder :: folder in t.folders <==> ListsFolder(listed, folder))
  {
    hide Read, Headers, FindDirectory, Once, FileSizes, Lists, ListsFolder, Supported, NoLaterEnd, OccursAt, Get32,
      Contents, End.Encode, Central.Kept, Central.Fits, PathOf, NamesFolder, DirectoryOf, AllKept, Centrals,
      AllReadable, AllSupported;
    var zip, records := front + end.Encode(), Centrals(members);
    EndIsFound(front, end);
    OccursInPrefix(front, end.Encode(), DirectoryOf(records), end.offset);
    OccursWithin(front, DirectoryOf(records), end.offset);
    DirectoryIsRead(records, zip, |front|, end.offset);
    var listed := AllKept(records);
    MembersAreReadable(codec, zip, members);
    ReadIff(codec, zip);
    ReadGivesWhatIsListed(codec, zip, Read(codec, zip).value);
    var t := Read(codec, zip).value;
    forall k | 0 <= k < |members| && !NamesFolder(members[k].central.name)
      ensures var path := PathOf(members[k].central.Kept()); path in t.files && t.files[path] == members[k].data
    {
      assert Stored(codec, zip, listed[k], t.files);
      KeptName(members[k].central);
    }
    assert EMPTY.files == map[] && EMPTY.folders == {};
  }

  lemma MembersAreReadable(codec: Codec, zip: Text, members: seq<Member>)
    requires AllSupported(codec, zip, members) && AllFit(Centrals(members))
    ensures var listed := AllKept(Centrals(members));
            AllReadable(codec, zip, listed) &&
            forall k :: 0 <= k < |members| ==>
              members[k].central.Fits() && listed[k] == members[k].central.Kept() &&
              (!NamesFolder(members[k].central.name) ==> Contents(codec, zip, listed[k]) == Ok(members[k].data))
  {
    hide Centrals, AllKept, Central.Kept, Central.Fits, Contents, Readable, NamesFolder, Supported;
    var listed := AllKept(Centrals(members));
    forall k | 0 <= k < |members|
      ensures members[k].central.Fits() && listed[k] == members[k].central.Kept() && Readable(codec, zip, listed[k])
      ensures !NamesFolder(members[k].central.name) ==> Contents(codec, zip, listed[k]) == Ok(members[k].data)
    {
      SupportedFitsOne(codec, zip, members[k]);
      KeptOf(codec, zip, members, k);
      SupportedIsReadable(codec, zip, members[k]);
    }
  }

  lemma SupportedFitsOne(codec: Codec, zip: Text, m: Member)
    requires Supported(codec, zip, m)
    ensures m.central.Fits()
  {
  }

  lemma KeptName(r: Central)
    requires r.Fits()
    ensures r.Kept().name == r.name
  {
  }
}
