/** A CARI tree in memory: files with their contents, and folders (cari.cpp, struct Tree). */
module CariTree {
  import opened Octets
  import opened CariPath

  datatype Tree = Tree(files: map<Text, Text>, folders: set<Text>)

  const EMPTY := Tree(map[], {})

  /** The loop of AddFolder: each part in turn is appended to `partial`, and every partial path is a folder. */
  function AddParts(folders: set<Text>, partial: Text, parts: seq<Text>): set<Text>
    decreases |parts|
  {
    if parts == [] then folders
    else
      var longer := partial + (if partial == [] then [] else "/") + parts[0];
      AddParts(folders + {longer}, longer, parts[1..])
  }

  function WithFolder(t: Tree, path: Text): Tree {
    t.(folders := AddParts(t.folders, [], Split(path)))
  }

  /** Where the last '/' is; None if there is none. */
  function LastSlash(path: Text): (r: Option<nat>)
    ensures r.Some? ==> r.value < |path| && path[r.value] == '/'
    ensures forall k :: (if r.Some? then r.value + 1 else 0) <= k < |path| ==> path[k] != '/'
  {
    if path == [] then None
    else if path[|path| - 1] == '/' then Some(|path| - 1)
    else LastSlash(path[..|path| - 1])
  }

  /** AddFile: the parent folders too. */
  function WithFile(t: Tree, path: Text, bytes: Text): Tree {
    var slash := LastSlash(path);
    var t1 := if slash.None? then t else WithFolder(t, path[..slash.value]);
    t1.(files := t1.files[path := bytes])
  }

  class MutableTree {
    var files: map<Text, Text>
    var folders: set<Text>

    function Value(): Tree
      reads this
    {
      Tree(files, folders)
    }

    constructor ()
      ensures Value() == EMPTY
    {
      files, folders := map[], {};
    }

    method Clear()
      modifies this
      ensures Value() == EMPTY
    {
      files, folders := map[], {};
    }

    method AddFolder(path: Text)
      modifies this`folders
      ensures Value() == WithFolder(old(Value()), path)
    {
      var parts := Split(path);
      var partial: Text := [];
      assert parts[0..] == parts;
      for k := 0 to |parts|
        invariant AddParts(old(folders), [], parts) == AddParts(folders, partial, parts[k..])
      {
        assert parts[k..][1..] == parts[k + 1..];
        partial := partial + (if partial == [] then [] else "/") + parts[k];
        folders := folders + {partial};
      }
    }

    method AddFile(path: Text, bytes: Text)
      modifies this
      ensures Value() == WithFile(old(Value()), path, bytes)
    {
      var slash := LastSlash(path);
      if slash.Some? {
        AddFolder(path[..slash.value]);
      }
      files := files[path := bytes];
    }
  }

  // ---- What adding a safe path adds ---------------------------------------

  /** The folders of a path that end after `r`: those above it and itself. */
  function FoldersFrom(path: Text, r: nat): set<Text> {
    set k | r < k <= |path| && Boundary(path, k) :: path[..k]
  }

  lemma {:induction false} NextSlashShift(path: Text, r: nat)
    requires r <= |path|
    ensures NextSlash(path[r..], 0) + r == NextSlash(path, r)
  {
    var s := NextSlash(path, r);
    assert forall j :: 0 <= j < s - r ==> path[r..][j] == path[r + j];
    NextSlashIs(path[r..], 0, s - r);
  }

  /** Between two slashes there is one folder boundary. */
  lemma FoldersStep(path: Text, r: nat)
    requires r < |path| && (r == 0 || path[r - 1] == '/') && path[r] != '/'
    ensures var s := NextSlash(path, r);
            FoldersFrom(path, r) == {path[..s]} + FoldersFrom(path, s)
  {
    var s := NextSlash(path, r);
    assert path[s - 1] != '/' && Boundary(path, s);
    assert forall k :: r < k < s ==> !Boundary(path, k);
    assert path[..s] in FoldersFrom(path, r);
    forall f | f in FoldersFrom(path, r)
      ensures f in {path[..s]} + FoldersFrom(path, s)
    {
      var k :| r < k <= |path| && Boundary(path, k) && f == path[..k];
    }
  }

  lemma {:induction false} AddPartsAdds(folders: set<Text>, path: Text, r: nat)
    requires r <= |path| && (r == 0 || (r > 1 && path[r - 1] == '/' && Boundary(path, r - 1)))
    requires [] !in Split(path[r..])
    ensures AddParts(folders, if r == 0 then [] else path[..r - 1], Split(path[r..])) == folders + FoldersFrom(path, r)
    decreases |path| - r
  {
    hide Split, AddParts, NextSlash;
    var rest := path[r..];
    if rest == [] {
      EmptySplit();
      NoParts(folders, if r == 0 then [] else path[..r - 1]);
      assert FoldersFrom(path, r) == {};
    } else {
      var s := NextSlash(path, r);
      FirstNotSlash(rest);
      FoldersStep(path, r);
      AddPartsStep(folders, path, r);
      if s < |path| {
        NoBoundary(path, s);
        AddPartsAdds(folders + {path[..s]}, path, s + 1);
      } else {
        NoParts(folders + {path[..s]}, path[..s]);
        assert FoldersFrom(path, s) == {};
      }
    }
  }

  lemma FirstNotSlash(path: Text)
    requires path != [] && [] !in Split(path)
    ensures path[0] != '/'
  {
    hide Split;
    SplitFirst(path);
    assert path[..NextSlash(path, 0)] in Split(path);
  }

  lemma NoBoundary(path: Text, s: nat)
    requires s < |path| && path[s] == '/'
    ensures FoldersFrom(path, s) == FoldersFrom(path, s + 1)
  {
    assert !Boundary(path, s + 1);
  }

  /** One turn of the loop, at the part that starts at `r`. */
  lemma AddPartsStep(folders: set<Text>, path: Text, r: nat)
    requires r < |path| && (r == 0 || (r > 1 && path[r - 1] == '/')) && [] !in Split(path[r..])
    ensures var s := NextSlash(path, r);
            var parts := if s == |path| then [] else Split(path[s + 1..]);
            [] !in parts &&
            AddParts(folders, if r == 0 then [] else path[..r - 1], Split(path[r..])) ==
            AddParts(folders + {path[..s]}, path[..s], parts)
  {
    hide Split;
    var rest, s := path[r..], NextSlash(path, r);
    NextSlashShift(path, r);
    SplitFirst(rest);
    var parts := if s == |path| then [] else Split(path[s + 1..]);
    assert s < |path| ==> rest[s - r + 1..] == path[s + 1..];
    assert rest[..s - r] == path[r..s] && (|rest| == s - r <==> s == |path|);
    assert Split(rest) == [path[r..s]] + parts;
    assert [] in parts ==> [] in Split(rest);
    var partial := if r == 0 then [] else path[..r - 1];
    assert partial + (if partial == [] then [] else "/") + path[r..s] == path[..s];
    AddPartsUnfolds(folders, partial, path[r..s], parts);
  }

  lemma AddPartsUnfolds(folders: set<Text>, partial: Text, part: Text, parts: seq<Text>)
    ensures var longer := partial + (if partial == [] then [] else "/") + part;
            AddParts(folders, partial, [part] + parts) == AddParts(folders + {longer}, longer, parts)
  {
    assert ([part] + parts)[1..] == parts;
  }

  lemma NoParts(folders: set<Text>, partial: Text)
    ensures AddParts(folders, partial, []) == folders
  {
  }

  lemma EmptySplit()
    ensures Split([]) == []
  {
  }

  /** Adding a safe path adds it (without a '/' at its end) and every folder above it, and nothing else. */
  lemma WithFolderAdds(t: Tree, path: Text)
    requires IsSafeZipPath(path)
    ensures WithFolder(t, path) == t.(folders := t.folders + FoldersFrom(path, 0))
  {
    assert path[0..] == path;
    assert [] !in Split(path) by {
      assert [] in Split(path) ==> GoodPart([]);
    }
    AddPartsAdds(t.folders, path, 0);
  }

  // ---- Parent-closed trees ------------------------------------------------

  /** Every folder above `path` is there. */
  predicate ParentsIn(path: Text, folders: set<Text>) {
    forall k :: 0 < k < |path| && path[k] == '/' ==> path[..k] in folders
  }

  predicate GoodPath(path: Text) {
    IsSafeZipPath(path) && Canonical(path)
  }

  /** Safe paths without a '/' at the end, each with all its folders. */
  predicate WellFormed(t: Tree) {
    (forall f :: f in t.folders ==> GoodPath(f) && ParentsIn(f, t.folders)) &&
    (forall f :: f in t.files ==> GoodPath(f) && ParentsIn(f, t.folders))
  }

  lemma BoundaryAtSlash(path: Text, k: nat)
    requires IsSafeZipPath(path) && k < |path| && path[k] == '/'
    ensures Boundary(path, k)
  {
    assert [] in Split(path) ==> GoodPart([]);
    SlashEndsPart(path, k);
  }

  lemma FolderKeepsWellFormed(t: Tree, path: Text)
    requires WellFormed(t) && IsSafeZipPath(path)
    ensures WellFormed(WithFolder(t, path))
  {
    hide IsSafeZipPath;
    WithFolderAdds(t, path);
    var folders := t.folders + FoldersFrom(path, 0);
    forall f | f in FoldersFrom(path, 0)
      ensures GoodPath(f) && ParentsIn(f, folders)
    {
      var k :| 0 < k <= |path| && Boundary(path, k) && f == path[..k];
      PrefixIsSafe(path, k);
      forall j | 0 < j < |f| && f[j] == '/'
        ensures f[..j] in folders
      {
        BoundaryAtSlash(path, j);
        assert f[..j] == path[..j];
      }
    }
    assert forall f :: f in t.folders || f in t.files ==> ParentsIn(f, folders);
  }

  /** The folders that adding a file adds. */
  function FileFolders(path: Text): set<Text> {
    var slash := LastSlash(path);
    if slash.None? then {} else FoldersFrom(path[..slash.value], 0)
  }

  lemma FileAdds(t: Tree, path: Text, bytes: Text)
    requires GoodPath(path)
    ensures WithFile(t, path, bytes) == Tree(t.files[path := bytes], t.folders + FileFolders(path))
    ensures ParentsIn(path, FileFolders(path)) && WellFormed(Tree(map[], FileFolders(path)))
  {
    hide IsSafeZipPath, LastSlash, WithFolder, FoldersFrom, WellFormed;
    var slash := LastSlash(path);
    if slash.Some? {
      BoundaryAtSlash(path, slash.value);
      PrefixIsSafe(path, slash.value);
      var parent := path[..slash.value];
      WithFolderAdds(t, parent);
      WithFolderAdds(EMPTY, parent);
      EmptyWellFormed();
      FolderKeepsWellFormed(EMPTY, parent);
      assert EMPTY.folders + FoldersFrom(parent, 0) == FoldersFrom(parent, 0);
      ParentsOfFile(path, slash.value);
    } else {
      EmptyWellFormed();
    }
  }

  lemma EmptyWellFormed()
    ensures WellFormed(EMPTY)
  {
  }

  lemma ParentsOfFile(path: Text, slash: nat)
    requires IsSafeZipPath(path) && slash < |path| && path[slash] == '/' && forall k :: slash < k < |path| ==> path[k] != '/'
    ensures ParentsIn(path, FoldersFrom(path[..slash], 0))
  {
    hide IsSafeZipPath;
    var parent := path[..slash];
    forall k | 0 < k < |path| && path[k] == '/'
      ensures path[..k] in FoldersFrom(parent, 0)
    {
      BoundaryAtSlash(path, k);
      assert path[..k] == parent[..k] && Boundary(parent, k);
    }
  }

  lemma FileKeepsWellFormed(t: Tree, path: Text, bytes: Text)
    requires WellFormed(t) && GoodPath(path)
    ensures WellFormed(WithFile(t, path, bytes))
  {
    hide IsSafeZipPath, LastSlash, WithFile, FileFolders;
    FileAdds(t, path, bytes);
    var folders := t.folders + FileFolders(path);
    assert forall f :: f in t.folders || f in t.files ==> ParentsIn(f, folders);
    assert ParentsIn(path, folders);
    assert forall f :: f in FileFolders(path) ==> ParentsIn(f, folders);
  }

  /** In a well-formed tree all folders of its paths are there already. */
  lemma FoldersAlreadyIn(t: Tree, path: Text)
    requires WellFormed(t) && (path in t.folders || path in t.files)
    ensures path in t.folders ==> FoldersFrom(path, 0) <= t.folders
    ensures path in t.files ==> FileFolders(path) <= t.folders
  {
    hide IsSafeZipPath;
    if path in t.folders {
      forall f | f in FoldersFrom(path, 0)
        ensures f in t.folders
      {
        var k :| 0 < k <= |path| && Boundary(path, k) && f == path[..k];
        assert path[..|path|] == path;
      }
    }
    if path in t.files && LastSlash(path).Some? {
      var slash := LastSlash(path).value;
      var parent := path[..slash];
      forall f | f in FoldersFrom(parent, 0)
        ensures f in t.folders
      {
        var k :| 0 < k <= |parent| && Boundary(parent, k) && f == parent[..k];
        assert path[..k] == parent[..k] && path[k] == '/';
      }
    }
  }

  // ---- The size of all contents -------------------------------------------

  ghost function TotalSize(files: map<Text, Text>): nat
    decreases |files|
  {
    if files == map[] then 0
    else
      var path :| path in files;
      |files[path]| + TotalSize(files - {path})
  }

  /** It does not matter which file is counted first. */
  lemma {:induction false} TotalSizeWithout(files: map<Text, Text>, path: Text)
    requires path in files
    ensures TotalSize(files) == |files[path]| + TotalSize(files - {path})
    decreases |files|
  {
    var other :| other in files && TotalSize(files) == |files[other]| + TotalSize(files - {other});
    if other != path {
      TotalSizeWithout(files - {other}, path);
      TotalSizeWithout(files - {path}, other);
      assert files - {other} - {path} == files - {path} - {other};
    }
  }

  lemma TotalSizeWith(files: map<Text, Text>, path: Text, bytes: Text)
    requires path !in files
    ensures TotalSize(files[path := bytes]) == TotalSize(files) + |bytes|
  {
    TotalSizeWithout(files[path := bytes], path);
    assert files[path := bytes] - {path} == files;
  }

  lemma {:induction false} TotalSizeOfPart(part: map<Text, Text>, files: map<Text, Text>)
    requires forall p :: p in part ==> p in files && part[p] == files[p]
    ensures TotalSize(part) <= TotalSize(files)
    decreases |part|
  {
    if part != map[] {
      var path :| path in part;
      TotalSizeWithout(part, path);
      TotalSizeWithout(files, path);
      TotalSizeOfPart(part - {path}, files - {path});
    }
  }
}
