/** Reading a zip file that anyone may have sent (cari.cpp, ReadZip). */
module ZipRead {
  import opened Octets
  import opened CariPath
  import opened CariTree
  import opened ZipWrite

  const MAX_ZIP_BYTES := 4 * 1024 * 1024
  const MAX_ENTRIES := 4096
  const MAX_TOTAL_UNCOMPRESSED := 16 * 1024 * 1024

  datatype ZipError =
    | TooLarge | NotZip | NoEndRecord | MultiPart | TooManyEntries | DirectoryOutOfRange
    | DamagedEntry | NameOutOfRange | Encrypted | Zip64 | UnsupportedMethod | UnsafePath
    | UnpacksTooLarge | LocalHeaderDamaged | DataOutOfRange | SizeMismatch | CannotInflate | CrcMismatch | Twice

  function Inflate(codec: Codec, packed: Text, expected: nat): Option<Text> {
    match codec.inflate(packed, expected)
    case StreamEnd(out) => if |out| == expected then Some(out) else None
    case BufError => if expected == 0 then Some([]) else None
    case Failed => None
  }

  /** The last place in `lowest..n` where an end record starts; None if none does. */
  function FindEnd(zip: Text, n: nat, lowest: nat): (r: Option<nat>)
    requires n + 3 <= |zip|
    ensures r.Some? ==> lowest <= r.value < n && Get32(zip, r.value) == END_OF_CENTRAL_DIR_SIG
    ensures forall k :: (if r.Some? then r.value < k else lowest <= k) && k < n ==> Get32(zip, k) != END_OF_CENTRAL_DIR_SIG
  {
    if n <= lowest then None
    else if Get32(zip, n - 1) == END_OF_CENTRAL_DIR_SIG then Some(n - 1)
    else FindEnd(zip, n - 1, lowest)
  }

  /** One entry of the central directory. */
  datatype Header = Header(flags: Word16, packing: Word16, crc: Word32, csize: Word32, usize: Word32,
                           name: Text, extraLen: Word16, commentLen: Word16, localOffset: Word32)

  function HeaderAt(zip: Text, eocd: nat, at: nat): (r: Result<Header, ZipError>)
    requires eocd <= |zip|
    ensures r.Ok? ==> at + 46 + |r.value.name| <= eocd
  {
    if at + 46 > eocd || Get32(zip, at) != CENTRAL_HEADER_SIG then Err(DamagedEntry)
    else
      var nameLen := Get16(zip, at + 28);
      if at + 46 + nameLen > eocd then Err(NameOutOfRange)
      else Ok(Header(Get16(zip, at + 8), Get16(zip, at + 10), Get32(zip, at + 16), Get32(zip, at + 20),
                     Get32(zip, at + 24), zip[at + 46..at + 46 + nameLen], Get16(zip, at + 30),
                     Get16(zip, at + 32), Get32(zip, at + 42)))
  }

  function After(at: nat, h: Header): nat {
    at + 46 + |h.name| + h.extraLen + h.commentLen
  }

  /** The checks on an entry alone, up to its path. */
  function HeaderFault(h: Header): Option<ZipError> {
    if h.flags % 2 == 1 then Some(Encrypted)
    else if h.csize == 0xFFFFFFFF || h.usize == 0xFFFFFFFF || h.localOffset == 0xFFFFFFFF then Some(Zip64)
    else if h.packing != 0 && h.packing != 8 then Some(UnsupportedMethod)
    else if !IsSafeZipPath(PathOf(h)) then Some(UnsafePath)
    else None
  }

  /** The name without the '/' that marks a folder. */
  function PathOf(h: Header): Text {
    if NamesFolder(h.name) then h.name[..|h.name| - 1] else h.name
  }

  /** The contents of a file entry. */
  function Contents(codec: Codec, zip: Text, h: Header): (r: Result<Text, ZipError>)
    ensures r.Ok? ==> |r.value| == h.usize && codec.crc(r.value) == h.crc
  {
    if h.localOffset + 30 > |zip| || Get32(zip, h.localOffset) != LOCAL_HEADER_SIG then Err(LocalHeaderDamaged)
    else
      var dataAt := h.localOffset + 30 + Get16(zip, h.localOffset + 26) + Get16(zip, h.localOffset + 28);
      if dataAt + h.csize > |zip| then Err(DataOutOfRange)
      else
        var packed := zip[dataAt..dataAt + h.csize];
        if h.packing == 0 && h.csize != h.usize then Err(SizeMismatch)
        else
          var data := if h.packing == 0 then Some(packed) else Inflate(codec, packed, h.usize);
          if data.None? then Err(CannotInflate)
          else if codec.crc(data.value) != h.crc then Err(CrcMismatch)
          else Ok(data.value)
  }

  /** Where the reader is in the directory, the sizes so far, and the tree so far. */
  datatype Reading = Reading(at: nat, total: nat, tree: Tree)

  function ReadEntry(codec: Codec, zip: Text, eocd: nat, s: Reading): Result<Reading, ZipError>
    requires eocd <= |zip|
  {
    match HeaderAt(zip, eocd, s.at)
    case Err(e) => Err(e)
    case Ok(h) =>
      if HeaderFault(h).Some? then Err(HeaderFault(h).value)
      else if NamesFolder(h.name) then Ok(Reading(After(s.at, h), s.total, WithFolder(s.tree, PathOf(h))))
      else if s.total + h.usize > MAX_TOTAL_UNCOMPRESSED then Err(UnpacksTooLarge)
      else
        match Contents(codec, zip, h)
        case Err(e) => Err(e)
        case Ok(data) =>
          if PathOf(h) in s.tree.files then Err(Twice)
          else Ok(Reading(After(s.at, h), s.total + h.usize, WithFile(s.tree, PathOf(h), data)))
  }

  function ReadEntries(codec: Codec, zip: Text, eocd: nat, n: nat, s: Reading): Result<Reading, ZipError>
    requires eocd <= |zip|
    decreases n
  {
    if n == 0 then Ok(s)
    else
      match ReadEntry(codec, zip, eocd, s)
      case Err(e) => Err(e)
      case Ok(t) => ReadEntries(codec, zip, eocd, n - 1, t)
  }

  /** What the end record says: how many entries, and where the directory starts. */
  datatype Directory = Directory(eocd: nat, entries: Word16, at: Word32)

  function FindDirectory(zip: Text): (r: Result<Directory, ZipError>)
    ensures r.Ok? ==> r.value.eocd + 22 <= |zip| <= MAX_ZIP_BYTES && r.value.at <= r.value.eocd
    ensures r.Ok? ==> r.value.entries <= MAX_ENTRIES
  {
    if |zip| > MAX_ZIP_BYTES then Err(TooLarge)
    else if |zip| < 22 || Get32(zip, 0) != LOCAL_HEADER_SIG then Err(NotZip)
    else
      var found := FindEnd(zip, |zip| - 21, if |zip| > 65557 then |zip| - 65557 else 0);
      if found.None? then Err(NoEndRecord)
      else
        var eocd := found.value;
        var entries := Get16(zip, eocd + 10);
        if Get16(zip, eocd + 4) != 0 || Get16(zip, eocd + 6) != 0 || entries != Get16(zip, eocd + 8) then
          Err(MultiPart)
        else if entries > MAX_ENTRIES then Err(TooManyEntries)
        else if Get32(zip, eocd + 16) + Get32(zip, eocd + 12) > eocd then Err(DirectoryOutOfRange)
        else Ok(Directory(eocd, entries, Get32(zip, eocd + 16)))
  }

  function Read(codec: Codec, zip: Text): Result<Tree, ZipError> {
    match FindDirectory(zip)
    case Err(e) => Err(e)
    case Ok(d) =>
      match ReadEntries(codec, zip, d.eocd, d.entries, Reading(d.at, 0, EMPTY))
      case Err(e) => Err(e)
      case Ok(s) => Ok(s.tree)
  }

  method FindEndRecord(zip: Text) returns (eocd: Option<nat>)
    requires |zip| >= 22
    ensures eocd == FindEnd(zip, |zip| - 21, if |zip| > 65557 then |zip| - 65557 else 0)
    ensures eocd.Some? ==> eocd.value + 22 <= |zip| <= eocd.value + 65557 &&
                           Get32(zip, eocd.value) == END_OF_CENTRAL_DIR_SIG
    ensures forall k: nat :: (eocd.Some? ==> eocd.value < k) && k + 22 <= |zip| <= k + 65557 ==>
                               Get32(zip, k) != END_OF_CENTRAL_DIR_SIG
  {
    var lowest := if |zip| > 65557 then |zip| - 65557 else 0;
    var at := |zip| - 22 + 1;
    while at > lowest
      invariant lowest <= at <= |zip| - 21
      invariant FindEnd(zip, |zip| - 21, lowest) == FindEnd(zip, at, lowest)
    {
      at := at - 1;
      if Get32(zip, at) == END_OF_CENTRAL_DIR_SIG {
        return Some(at);
      }
    }
    return None;
  }

  /** One turn of the loop: the error, or what it did to `out` and the new place and total. */
  method ReadOne(codec: Codec, zip: Text, eocd: nat, at: nat, total: nat, out: MutableTree)
    returns (error: Option<ZipError>, at': nat, total': nat)
    requires eocd <= |zip|
    modifies out
    ensures match ReadEntry(codec, zip, eocd, Reading(at, total, old(out.Value())))
            case Err(e) => error == Some(e)
            case Ok(s) => error == None && s == Reading(at', total', out.Value())
  {
    hide Contents, HeaderFault, PathOf;
    at', total' := at, total;
    var header := HeaderAt(zip, eocd, at);
    if header.Err? {
      return Some(header.error), at, total;
    }
    var h := header.value;
    at' := After(at, h);
    if HeaderFault(h).Some? {
      return HeaderFault(h), at', total;
    }
    if NamesFolder(h.name) {
      out.AddFolder(PathOf(h));
      return None, at', total;
    }
    total' := total + h.usize;
    if total' > MAX_TOTAL_UNCOMPRESSED {
      return Some(UnpacksTooLarge), at', total';
    }
    var data := Contents(codec, zip, h);
    if data.Err? {
      return Some(data.error), at', total';
    }
    if PathOf(h) in out.files {
      return Some(Twice), at', total';
    }
    out.AddFile(PathOf(h), data.value);
    return None, at', total';
  }

  method ReadZip(codec: Codec, zip: Text, out: MutableTree) returns (error: Option<ZipError>)
    modifies out
    ensures match Read(codec, zip)
            case Err(e) => error == Some(e)
            case Ok(t) => error == None && out.Value() == t
  {
    hide ReadEntry;
    out.Clear();
    if |zip| > MAX_ZIP_BYTES {
      return Some(TooLarge);
    }
    if |zip| < 22 || Get32(zip, 0) != LOCAL_HEADER_SIG {
      return Some(NotZip);
    }
    var end := FindEndRecord(zip);
    if end.None? {
      return Some(NoEndRecord);
    }
    var eocd := end.value;
    var entries := Get16(zip, eocd + 10);
    var cdSize: nat, cdOffset: nat := Get32(zip, eocd + 12), Get32(zip, eocd + 16);
    if Get16(zip, eocd + 4) != 0 || Get16(zip, eocd + 6) != 0 || entries != Get16(zip, eocd + 8) {
      return Some(MultiPart);
    }
    if entries > MAX_ENTRIES {
      return Some(TooManyEntries);
    }
    if cdOffset + cdSize > eocd {
      return Some(DirectoryOutOfRange);
    }
    var total: nat, at: nat := 0, cdOffset;
    for i := 0 to entries
      invariant ReadEntries(codec, zip, eocd, entries, Reading(cdOffset, 0, EMPTY)) ==
                ReadEntries(codec, zip, eocd, entries - i, Reading(at, total, out.Value()))
    {
      error, at, total := ReadOne(codec, zip, eocd, at, total, out);
      if error.Some? {
        return;
      }
    }
    return None;
  }
}
