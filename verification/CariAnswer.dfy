/** The certificate signing requests of a CARI tree, and the response that answers them (cari.cpp, ListCsrs). */
module CariAnswer {
  import opened Octets
  import opened CariPath
  import opened CariTree
  import opened TextOrder
  import opened ZipWrite
  import opened CariRules
  import opened CariLegal

  /** One request, and where its answer goes. */
  datatype CsrEntry = CsrEntry(deviceFolder: Text, deviceInstance: nat, portFolder: Text, name: Text, csrPath: Text,
                               oprPath: Text, keyPath: Text, isHubPort: bool, isRouter: bool)

  predicate IsCsr(path: Text) {
    var p := Split(path);
    |p| == 4 && p[0] == "cert1" && IsDevice(p[1]) && StartsWith(p[2], "port-") && FileName(p[3], "csr-").Some?
  }

  function CsrOf(t: Tree, path: Text): CsrEntry
    requires IsCsr(path)
  {
    var p := Split(path);
    var name := FileName(p[3], "csr-").value;
    var port := "cert1/" + p[1] + "/" + p[2];
    var key := port + "/key-" + name + ".pem";
    CsrEntry(p[1], DeviceInstance(p[1]).value, p[2], name, path, port + "/opr-" + name + ".pem",
             if key in t.files then key else "", port + "/hub" in t.folders, "cert1/" + p[1] + "/router" in t.folders)
  }

  function CsrsAmong(t: Tree, paths: seq<Text>): seq<CsrEntry> {
    if paths == [] then []
    else (if IsCsr(paths[0]) then [CsrOf(t, paths[0])] else []) + CsrsAmong(t, paths[1..])
  }

  /** Every request in the tree, in path order. */
  ghost function Csrs(t: Tree): seq<CsrEntry> {
    CsrsAmong(t, Sorted(t.files.Keys))
  }

  method ListCsrs(t: Tree) returns (csrs: seq<CsrEntry>)
    ensures csrs == Csrs(t)
  {
    hide LeastIn, IsCsr, CsrOf, CsrsAmong, Sorted;
    csrs := [];
    var paths := t.files.Keys;
    NoCsrs(t);
    while paths != {}
      invariant CsrsAmong(t, Sorted(t.files.Keys)) == csrs + CsrsAmong(t, Sorted(paths))
      decreases |paths|
    {
      var path := PickLeast(paths);
      CsrsStep(t, csrs, path, Sorted(paths - {path}));
      if IsCsr(path) {
        csrs := csrs + [CsrOf(t, path)];
      }
      paths := paths - {path};
    }
  }

  lemma CsrsStep(t: Tree, before: seq<CsrEntry>, path: Text, rest: seq<Text>)
    ensures before + CsrsAmong(t, [path] + rest) ==
            before + (if IsCsr(path) then [CsrOf(t, path)] else []) + CsrsAmong(t, rest)
  {
    hide IsCsr, CsrOf;
    assert ([path] + rest)[1..] == rest;
  }

  lemma CsrsFirst(t: Tree, paths: seq<Text>)
    requires paths != []
    ensures CsrsAmong(t, paths) ==
            if IsCsr(paths[0]) then [CsrOf(t, paths[0])] + CsrsAmong(t, paths[1..]) else CsrsAmong(t, paths[1..])
  {
    hide IsCsr, CsrOf;
  }

  lemma NoCsrs(t: Tree)
    ensures CsrsAmong(t, Sorted({})) == []
  {
  }

  // ---- One entry for each request -----------------------------------------

  predicate HasEntry(csrs: seq<CsrEntry>, path: Text) {
    exists k :: 0 <= k < |csrs| && csrs[k].csrPath == path
  }

  predicate TrueEntry(t: Tree, e: CsrEntry) {
    IsCsr(e.csrPath) && e == CsrOf(t, e.csrPath)
  }

  lemma {:induction false} EntriesAmong(t: Tree, paths: seq<Text>)
    ensures forall k :: 0 <= k < |CsrsAmong(t, paths)| ==>
              TrueEntry(t, CsrsAmong(t, paths)[k]) && CsrsAmong(t, paths)[k].csrPath in paths
    ensures forall p :: p in paths && IsCsr(p) ==> HasEntry(CsrsAmong(t, paths), p)
    decreases |paths|
  {
    hide IsCsr, CsrsAmong;
    if paths == [] {
      NoEntries(t);
    } else {
      var rest := paths[1..];
      assert paths == [paths[0]] + rest;
      EntriesAmong(t, rest);
      CsrsFirst(t, paths);
      if IsCsr(paths[0]) {
        FirstEntry(t, paths[0], CsrsAmong(t, rest), CsrsAmong(t, paths));
      }
    }
  }

  lemma NoEntries(t: Tree)
    ensures CsrsAmong(t, []) == []
  {
  }

  lemma FirstEntry(t: Tree, path: Text, more: seq<CsrEntry>, csrs: seq<CsrEntry>)
    requires IsCsr(path) && csrs == [CsrOf(t, path)] + more
    ensures |csrs| == 1 + |more| && csrs[0] == CsrOf(t, path) && csrs[0].csrPath == path
    ensures forall k :: 1 <= k < |csrs| ==> csrs[k] == more[k - 1]
    ensures forall p :: HasEntry(csrs, p) <==> p == path || HasEntry(more, p)
  {
    hide IsCsr, FileName, DeviceInstance, Split;
    assert forall k :: 0 <= k < |more| ==> csrs[k + 1] == more[k];
  }

  predicate InPathOrder(csrs: seq<CsrEntry>) {
    forall j, k :: 0 <= j < k < |csrs| ==> Less(csrs[j].csrPath, csrs[k].csrPath)
  }

  lemma FirstInOrder(e: CsrEntry, more: seq<CsrEntry>)
    requires InPathOrder(more) && forall k :: 0 <= k < |more| ==> Less(e.csrPath, more[k].csrPath)
    ensures InPathOrder([e] + more)
  {
    hide Less;
  }

  lemma NoneInOrder()
    ensures InPathOrder([])
  {
  }

  lemma {:induction false} EntriesInOrder(t: Tree, paths: seq<Text>)
    requires Ascending(paths)
    ensures InPathOrder(CsrsAmong(t, paths))
    decreases |paths|
  {
    hide IsCsr, Less, CsrsAmong, InPathOrder, HasEntry;
    if paths == [] {
      assert InPathOrder([]) by {
        NoneInOrder();
      }
      NoEntries(t);
    } else {
      var rest := paths[1..];
      assert paths == [paths[0]] + rest;
      EntriesInOrder(t, rest);
      EntriesAmong(t, rest);
      CsrsFirst(t, paths);
      if IsCsr(paths[0]) {
        assert forall p :: p in rest ==> Less(paths[0], p);
        FirstInOrder(CsrOf(t, paths[0]), CsrsAmong(t, rest));
      }
    }
  }

  lemma InOrderIsDistinct(csrs: seq<CsrEntry>, j: nat, k: nat)
    requires InPathOrder(csrs) && j < k < |csrs|
    ensures csrs[j].csrPath != csrs[k].csrPath
  {
    Irreflexive(csrs[j].csrPath);
  }

  /** Each request file has exactly one entry, and an entry is that of a request file. */
  lemma OneEntryEach(t: Tree)
    ensures forall k :: 0 <= k < |Csrs(t)| ==> TrueEntry(t, Csrs(t)[k]) && Csrs(t)[k].csrPath in t.files
    ensures forall p :: p in t.files && IsCsr(p) ==> HasEntry(Csrs(t), p)
    ensures forall j, k :: 0 <= j < k < |Csrs(t)| ==> Csrs(t)[j].csrPath != Csrs(t)[k].csrPath
  {
    hide IsCsr, Less, HasEntry, TrueEntry, InPathOrder, CsrsAmong;
    EntriesAmong(t, Sorted(t.files.Keys));
    EntriesInOrder(t, Sorted(t.files.Keys));
    forall j, k | 0 <= j < k < |Csrs(t)|
      ensures Csrs(t)[j].csrPath != Csrs(t)[k].csrPath
    {
      InOrderIsDistinct(Csrs(t), j, k);
    }
  }

  /** The paths of a request and its answer, from their parts. */
  lemma PathsOfCsr(t: Tree, path: Text)
    requires GoodPath(path) && IsCsr(path)
    ensures var e := CsrOf(t, path);
            IsValidName(e.name) && IsDevice(e.deviceFolder) && StartsWith(e.portFolder, "port-") && '/' !in e.portFolder &&
            e.csrPath == path == Path4("cert1", e.deviceFolder, e.portFolder, "csr-" + e.name + ".pem") &&
            e.oprPath == Path4("cert1", e.deviceFolder, e.portFolder, "opr-" + e.name + ".pem")
  {
    hide Split, IsDevice, IsValidName, StartsWith, IsSafeZipPath, FileName;
    PathFromParts(path);
    var p, e := Split(path), CsrOf(t, path);
    assert p[2] in p;
    FileNameIff(p[3], "csr-", e.name);
    PathsAgree(p[1], p[2], e.name);
  }

  lemma PathsAgree(device: Text, port: Text, name: Text)
    ensures "cert1/" + device + "/" + port + "/opr-" + name + ".pem" == Path4("cert1", device, port, "opr-" + name + ".pem")
  {
    assert "cert1/" + device == "cert1" + "/" + device && "/opr-" + name == "/" + ("opr-" + name);
    Regroup("cert1" + "/" + device, "/" + port, "/" + ("opr-" + name + ".pem"));
  }

  lemma Regroup(a: Text, b: Text, c: Text)
    ensures a + b + c == a + (b + c)
  {
  }

  // ---- The response -------------------------------------------------------

  /** The tree with the answer to each request next to it. */
  function Answered(t: Tree, csrs: seq<CsrEntry>, answers: seq<Text>): Tree
    requires |csrs| == |answers|
  {
    if csrs == [] then t
    else
      var n := |csrs| - 1;
      WithFile(Answered(t, csrs[..n], answers[..n]), csrs[n].oprPath, answers[n])
  }

  function WithIssuer(t: Tree, file: Text, issuer: Option<Text>): Tree {
    if issuer.None? then t else WithFile(t, Path3("cert1", "issuer", file), issuer.value)
  }

  /** The response to a request: its whole tree, the answers, and none, one or both of the issuers. */
  function Response(t: Tree, csrs: seq<CsrEntry>, answers: seq<Text>, issuer1: Option<Text>, issuer2: Option<Text>): Tree
    requires |csrs| == |answers|
  {
    WithIssuer(WithIssuer(Answered(t, csrs, answers), "iss-1.pem", issuer1), "iss-2.pem", issuer2)
  }

  lemma {:induction false} RequestIsResponse(t: Tree)
    requires LegalTree(t, false)
    ensures LegalTree(t, true)
  {
    forall f | f in t.files
      ensures LegalFile(f, |t.files[f]|, true)
    {
      RequestFileIsResponseFile(f, |t.files[f]|);
    }
    forall f | f in t.folders
      ensures LegalFolder(f, true)
    {
      RequestFolderIsResponseFolder(f);
    }
    hide LegalFile, LegalFolder, DeviceFolderAt, PortFolderAt;
  }

  lemma RequestFolderIsResponseFolder(f: Text)
    requires LegalFolder(f, false)
    ensures LegalFolder(f, true)
  {
    hide IsDevice, IsPort, Path2, Path3, Path4;
  }

  lemma RequestFileIsResponseFile(f: Text, size: nat)
    requires LegalFile(f, size, false)
    ensures LegalFile(f, size, true)
  {
    hide IsDevice, Path2, Path3, Path4, IsFileName, StartsWith;
    if size <= MAX_PEM {
      if device, port, file :| PortFileAt(f, false, device, port, file) {
        assert PortFileAt(f, true, device, port, file);
      }
    }
  }

  // An answer's path is new, its own, and in a folder that is there.

  lemma AnswerIsLegal(e: CsrEntry, size: nat)
    requires IsValidName(e.name) && IsDevice(e.deviceFolder) && StartsWith(e.portFolder, "port-") && '/' !in e.portFolder
    requires e.oprPath == Path4("cert1", e.deviceFolder, e.portFolder, "opr-" + e.name + ".pem") && size <= MAX_PEM
    ensures LegalFile(e.oprPath, size, true)
  {
    hide IsDevice, IsValidName, StartsWith, Path2, Path3, Path4;
    assert IsFileName("opr-" + e.name + ".pem", "opr-");
    assert PortFileAt(e.oprPath, true, e.deviceFolder, e.portFolder, "opr-" + e.name + ".pem");
  }

  lemma OprIsNotInRequest(name: Text, prefix: Text)
    requires prefix in ["csr-", "key-"]
    ensures !IsFileName("opr-" + name + ".pem", prefix)
  {
    forall other
      ensures "opr-" + name + ".pem" != prefix + other + ".pem"
    {
      assert ("opr-" + name + ".pem")[0] == 'o' && (prefix + other + ".pem")[0] == prefix[0];
    }
  }

  lemma PartsOfPaths(t: Tree, path: Text)
    requires GoodPath(path) && IsCsr(path)
    ensures var e := CsrOf(t, path);
            Split(path) == ["cert1", e.deviceFolder, e.portFolder, "csr-" + e.name + ".pem"] &&
            Split(e.oprPath) == ["cert1", e.deviceFolder, e.portFolder, "opr-" + e.name + ".pem"]
  {
    hide Split, IsDevice, IsValidName, StartsWith, IsSafeZipPath, FileName, Path4, IsCsr, CsrOf;
    PathsOfCsr(t, path);
    var e := CsrOf(t, path);
    DeviceNoSlash(e.deviceFolder);
    NameNoSlash(e.name);
    SplitPath("cert1", e.deviceFolder, e.portFolder, "csr-" + e.name + ".pem");
    SplitPath("cert1", e.deviceFolder, e.portFolder, "opr-" + e.name + ".pem");
  }

  lemma NameNoSlash(name: Text)
    requires IsValidName(name)
    ensures '/' !in name
  {
  }

  lemma OprNotInRequest(t: Tree, path: Text)
    requires WellFormed(t) && LegalTree(t, false) && path in t.files && IsCsr(path)
    ensures CsrOf(t, path).oprPath !in t.files
  {
    hide Split, IsDevice, IsSafeZipPath, FileName, Path4, IsCsr, CsrOf, ParentsIn, LegalFile, LegalFolder, StartsWith,
      DeviceFolderAt, PortFolderAt;
    PartsOfPaths(t, path);
    var e := CsrOf(t, path);
    var file := "opr-" + e.name + ".pem";
    if e.oprPath in t.files {
      LegalFileIsFaultless(e.oprPath, |t.files[e.oprPath]|, false);
      OprIsNotInRequest(e.name, "csr-");
      OprIsNotInRequest(e.name, "key-");
      FileNames(file, "csr-");
      FileNames(file, "key-");
      assert false;
    }
  }

  lemma OprPathsDiffer(t: Tree, path: Text, other: Text)
    requires GoodPath(path) && IsCsr(path) && GoodPath(other) && IsCsr(other)
    requires CsrOf(t, path).oprPath == CsrOf(t, other).oprPath
    ensures path == other
  {
    hide Split, IsSafeZipPath, IsCsr, CsrOf, Join;
    PartsOfPaths(t, path);
    PartsOfPaths(t, other);
    var e, f := CsrOf(t, path), CsrOf(t, other);
    SameName(e.name, f.name);
    JoinSplit(path);
    JoinSplit(other);
  }

  lemma SameName(a: Text, b: Text)
    requires "opr-" + a + ".pem" == "opr-" + b + ".pem"
    ensures a == b
  {
    PasteName("opr-", a);
    PasteName("opr-", b);
  }

  lemma OprPathIsGood(t: Tree, path: Text)
    requires GoodPath(path) && IsCsr(path)
    ensures GoodPath(CsrOf(t, path).oprPath)
  {
    hide Split, IsDevice, StartsWith, FileName, IsCsr, CsrOf;
    PathsOfCsr(t, path);
    PartsOfPaths(t, path);
    var e := CsrOf(t, path);
    var p, q := Split(path), Split(e.oprPath);
    assert forall part :: part in p ==> GoodPart(part);
    assert e.deviceFolder in p && e.portFolder in p && p[0] in p;
    NameIsGood(e.name);
    NoOddCharacters(e.deviceFolder, e.portFolder, "csr-" + e.name + ".pem", "opr-" + e.name + ".pem");
  }

  lemma NameIsGood(name: Text)
    requires IsValidName(name)
    ensures GoodPart("opr-" + name + ".pem") && '\\' !in "opr-" + name + ".pem" && ':' !in "opr-" + name + ".pem"
  {
  }

  lemma NoOddCharacters(device: Text, port: Text, file: Text, other: Text)
    ensures var path, q := Path4("cert1", device, port, file), Path4("cert1", device, port, other);
            ('\\' !in path && '\\' !in other ==> '\\' !in q) && (':' !in path && ':' !in other ==> ':' !in q) &&
            |q| > 5 && q[0] == 'c' && (other != [] && other[|other| - 1] != '/' ==> q[|q| - 1] != '/')
  {
  }

  lemma FoldersOfFile(parent: Text, file: Text)
    requires '/' !in file
    ensures FileFolders(parent + "/" + file) == FoldersFrom(parent, 0)
  {
    hide FoldersFrom;
    var path := parent + "/" + file;
    assert path[|parent|] == '/';
    assert forall k :: |parent| < k < |path| ==> path[k] == file[k - |parent| - 1];
    assert LastSlash(path) == Some(|parent|);
    assert path[..|parent|] == parent;
  }

  lemma Path4Parent(a: Text, b: Text, c: Text, d: Text)
    ensures Path4(a, b, c, d) == Path3(a, b, c) + "/" + d && Path3(a, b, c) == Path2(a, b) + "/" + c
  {
  }

  lemma OprFoldersAreThere(t: Tree, path: Text)
    requires WellFormed(t) && path in t.files && IsCsr(path)
    ensures FileFolders(CsrOf(t, path).oprPath) <= t.folders
  {
    hide IsDevice, StartsWith, FileName, IsCsr, CsrOf, IsSafeZipPath, ParentsIn, FileFolders, Path3, Path4;
    PathsOfCsr(t, path);
    var e := CsrOf(t, path);
    NameNoSlash(e.name);
    var port := Path3("cert1", e.deviceFolder, e.portFolder);
    Path4Parent("cert1", e.deviceFolder, e.portFolder, "csr-" + e.name + ".pem");
    Path4Parent("cert1", e.deviceFolder, e.portFolder, "opr-" + e.name + ".pem");
    FoldersOfFile(port, "csr-" + e.name + ".pem");
    FoldersOfFile(port, "opr-" + e.name + ".pem");
    FoldersAlreadyIn(t, path);
  }

  /** All that matters of one request and its answer. */
  ghost predicate Answerable(t: Tree, e: CsrEntry) {
    GoodPath(e.oprPath) && FileFolders(e.oprPath) <= t.folders && e.oprPath !in t.files &&
    forall size: nat :: size <= MAX_PEM ==> LegalFile(e.oprPath, size, true)
  }

  ghost predicate AllAnswerable(t: Tree, csrs: seq<CsrEntry>) {
    (forall k :: 0 <= k < |csrs| ==> Answerable(t, csrs[k])) &&
    (forall j, k :: 0 <= j < k < |csrs| ==> csrs[j].oprPath != csrs[k].oprPath)
  }

  lemma CsrIsAnswerable(t: Tree, path: Text)
    requires WellFormed(t) && LegalTree(t, false) && path in t.files && IsCsr(path)
    ensures Answerable(t, CsrOf(t, path))
  {
    hide IsDevice, StartsWith, IsCsr, CsrOf, IsSafeZipPath, ParentsIn, FileFolders, LegalTree, LegalFile, Path4, FileName;
    OprPathIsGood(t, path);
    OprFoldersAreThere(t, path);
    OprNotInRequest(t, path);
    PathsOfCsr(t, path);
    forall size: nat | size <= MAX_PEM
      ensures LegalFile(CsrOf(t, path).oprPath, size, true)
    {
      AnswerIsLegal(CsrOf(t, path), size);
    }
  }

  /** The answers' paths are new in the request, and no two requests share one. */
  lemma AnswerPathsAreNew(t: Tree)
    requires WellFormed(t) && LegalTree(t, false)
    ensures forall k :: 0 <= k < |Csrs(t)| ==> Csrs(t)[k].oprPath !in t.files
    ensures forall j, k :: 0 <= j < k < |Csrs(t)| ==> Csrs(t)[j].oprPath != Csrs(t)[k].oprPath
    ensures AllAnswerable(t, Csrs(t))
  {
    hide IsCsr, CsrOf, LegalTree, Answerable, Csrs, WellFormed, GoodPath, HasEntry;
    var csrs := Csrs(t);
    OneEntryEach(t);
    forall k | 0 <= k < |csrs|
      ensures Answerable(t, csrs[k]) && csrs[k].oprPath !in t.files
    {
      CsrIsAnswerable(t, csrs[k].csrPath);
      assert csrs[k].oprPath !in t.files by {
        NewIfAnswerable(t, csrs[k]);
      }
    }
    forall j, k | 0 <= j < k < |csrs|
      ensures csrs[j].oprPath != csrs[k].oprPath
    {
      PathIsGood(t, csrs[j].csrPath);
      PathIsGood(t, csrs[k].csrPath);
      if csrs[j].oprPath == csrs[k].oprPath {
        OprPathsDiffer(t, csrs[j].csrPath, csrs[k].csrPath);
      }
    }
  }

  lemma NewIfAnswerable(t: Tree, e: CsrEntry)
    requires Answerable(t, e)
    ensures e.oprPath !in t.files
  {
  }

  lemma PathIsGood(t: Tree, path: Text)
    requires WellFormed(t) && path in t.files
    ensures GoodPath(path)
  {
  }

  /** `after` is `t` with the answers, and with nothing else. */
  predicate HasAnswers(t: Tree, csrs: seq<CsrEntry>, answers: seq<Text>, after: Tree)
    requires |csrs| == |answers|
  {
    after.folders == t.folders &&
    (forall p :: p in t.files ==> p in after.files && after.files[p] == t.files[p]) &&
    (forall k :: 0 <= k < |csrs| ==> csrs[k].oprPath in after.files && after.files[csrs[k].oprPath] == answers[k]) &&
    forall p :: p in after.files ==> p in t.files || exists k :: 0 <= k < |csrs| && csrs[k].oprPath == p
  }

  predicate OnlyTopFoldersNew(t: Tree, path: Text) {
    forall f :: f in FileFolders(path) ==> f in t.folders || f == "cert1" || f == Path2("cert1", "issuer")
  }

  /** Adding a legal file whose new folders are no device folders keeps a tree legal. */
  lemma LegalFileKeepsLegal(t: Tree, path: Text, bytes: Text)
    requires WellFormed(t) && LegalTree(t, true) && GoodPath(path) && LegalFile(path, |bytes|, true)
    requires OnlyTopFoldersNew(t, path)
    ensures WellFormed(WithFile(t, path, bytes)) && LegalTree(WithFile(t, path, bytes), true)
  {
    hide WithFile, FileFolders, IsSafeZipPath, LegalFile, DeviceFolderAt, PortFolderAt, LegalFolder, ParentsIn, Path2;
    FileAdds(t, path, bytes);
    FileKeepsWellFormed(t, path, bytes);
    var r := WithFile(t, path, bytes);
    TopFoldersAreLegal();
    assert forall f :: f in r.folders ==> LegalFolder(f, true);
    forall f, device | f in r.folders && DeviceFolderAt(f, device)
      ensures exists g, port :: g in r.folders && PortFolderAt(g, device, port)
    {
      NoDeviceAtTop(device);
      var g, port :| g in t.folders && PortFolderAt(g, device, port);
      assert g in r.folders;
    }
    var f, device :| f in t.folders && DeviceFolderAt(f, device);
    assert f in r.folders;
  }

  lemma TopFoldersAreLegal()
    ensures LegalFolder("cert1", true) && LegalFolder(Path2("cert1", "issuer"), true)
  {
    hide Path2;
  }

  lemma NoDeviceAtTop(device: Text)
    ensures !DeviceFolderAt("cert1", device) && !DeviceFolderAt(Path2("cert1", "issuer"), device)
  {
    hide Split, Path2, IsDevice;
    SplitPath("cert1", "issuer", [], []);
    if DeviceFolderAt("cert1", device) {
      DeviceFolderParts("cert1", device);
    }
    if DeviceFolderAt(Path2("cert1", "issuer"), device) {
      DeviceFolderParts(Path2("cert1", "issuer"), device);
    }
  }

  lemma {:induction false} AnsweredIsLegal(t: Tree, csrs: seq<CsrEntry>, answers: seq<Text>)
    requires WellFormed(t) && LegalTree(t, true) && AllAnswerable(t, csrs)
    requires |csrs| == |answers| && forall k :: 0 <= k < |answers| ==> |answers[k]| <= MAX_PEM
    ensures var r := Answered(t, csrs, answers);
            WellFormed(r) && LegalTree(r, true) && HasAnswers(t, csrs, answers, r)
    decreases |csrs|
  {
    hide WithFile, FileFolders, LegalTree, WellFormed, GoodPath, Path2, LegalFile;
    if csrs != [] {
      var n := |csrs| - 1;
      assert AllAnswerable(t, csrs[..n]) by {
        FewerAnswerable(t, csrs);
      }
      AnsweredIsLegal(t, csrs[..n], answers[..n]);
      var before, e := Answered(t, csrs[..n], answers[..n]), csrs[n];
      assert Answerable(t, e);
      LegalFileKeepsLegal(before, e.oprPath, answers[n]);
      FileAdds(before, e.oprPath, answers[n]);
      OneMoreAnswer(t, csrs, answers, before, Answered(t, csrs, answers));
    }
  }

  lemma FewerAnswerable(t: Tree, csrs: seq<CsrEntry>)
    requires AllAnswerable(t, csrs) && csrs != []
    ensures AllAnswerable(t, csrs[..|csrs| - 1])
  {
    hide Answerable;
  }

  lemma OneMoreAnswer(t: Tree, csrs: seq<CsrEntry>, answers: seq<Text>, before: Tree, after: Tree)
    requires |csrs| == |answers| > 0 && AllAnswerable(t, csrs)
    requires HasAnswers(t, csrs[..|csrs| - 1], answers[..|csrs| - 1], before)
    requires after.folders == before.folders + FileFolders(csrs[|csrs| - 1].oprPath)
    requires after.files == before.files[csrs[|csrs| - 1].oprPath := answers[|csrs| - 1]]
    ensures HasAnswers(t, csrs, answers, after)
  {
    hide FileFolders, GoodPath, LegalFile;
    var n := |csrs| - 1;
    assert Answerable(t, csrs[n]);
    assert after.folders == t.folders;
    forall k | 0 <= k < |csrs|
      ensures csrs[k].oprPath in after.files && after.files[csrs[k].oprPath] == answers[k]
    {
      assert k < n ==> csrs[..n][k] == csrs[k] && answers[..n][k] == answers[k];
    }
    forall p | p in after.files && p !in t.files
      ensures exists k :: 0 <= k < |csrs| && csrs[k].oprPath == p
    {
      if p != csrs[n].oprPath {
        var k :| 0 <= k < n && csrs[..n][k].oprPath == p;
        assert csrs[k].oprPath == p;
      }
    }
  }

  /** A request stays a legal tree, as a response, when every request file is answered and issuers are added. */
  lemma ResponseIsLegal(t: Tree, answers: seq<Text>, issuer1: Option<Text>, issuer2: Option<Text>)
    requires WellFormed(t) && LegalTree(t, false)
    requires |answers| == |Csrs(t)| && forall k :: 0 <= k < |answers| ==> |answers[k]| <= MAX_PEM
    ensures var r := Response(t, Csrs(t), answers, issuer1, issuer2);
            WellFormed(r) && LegalTree(r, true) &&
            HasAnswers(t, Csrs(t), answers, Answered(t, Csrs(t), answers))
  {
    hide LegalTree, Answerable, Csrs, WellFormed, WithIssuer, HasAnswers, Answered;
    RequestIsResponse(t);
    AnswerPathsAreNew(t);
    AnsweredIsLegal(t, Csrs(t), answers);
    var answered := Answered(t, Csrs(t), answers);
    IssuerKeepsLegal(answered, "iss-1.pem", issuer1);
    IssuerKeepsLegal(WithIssuer(answered, "iss-1.pem", issuer1), "iss-2.pem", issuer2);
  }

  lemma IssuerKeepsLegal(t: Tree, file: Text, issuer: Option<Text>)
    requires WellFormed(t) && LegalTree(t, true) && file in ["iss-1.pem", "iss-2.pem"]
    ensures var r := WithIssuer(t, file, issuer);
            WellFormed(r) && LegalTree(r, true)
  {
    hide LegalTree, WellFormed, WithFile, FileFolders, GoodPath, Path2, Path3, FoldersFrom;
    if issuer.Some? {
      var path := Path3("cert1", "issuer", file);
      IssuerPath(file);
      LegalFileKeepsLegal(t, path, issuer.value);
    }
  }

  lemma FoldersWithPart(parent: Text, part: Text)
    requires parent != [] && parent[|parent| - 1] != '/' && part != [] && '/' !in part
    ensures FoldersFrom(parent + "/" + part, 0) == FoldersFrom(parent, 0) + {parent + "/" + part}
  {
    var path := parent + "/" + part;
    assert forall k :: |parent| < k < |path| ==> path[k] == part[k - |parent| - 1];
    forall f
      ensures f in FoldersFrom(path, 0) <==> f in FoldersFrom(parent, 0) || f == path
    {
      if f in FoldersFrom(path, 0) {
        var k :| 0 < k <= |path| && Boundary(path, k) && f == path[..k];
        if k <= |parent| {
          assert Boundary(parent, k) && f == parent[..k];
        } else {
          assert k == |path|;
        }
      }
      if f in FoldersFrom(parent, 0) {
        var k :| 0 < k <= |parent| && Boundary(parent, k) && f == parent[..k];
        assert Boundary(path, k) && f == path[..k];
      }
      assert Boundary(path, |path|) && path[..|path|] == path;
    }
  }

  lemma TopFolder()
    ensures FoldersFrom("cert1", 0) == {"cert1"}
  {
    var path: Text := "cert1";
    assert forall k :: 0 <= k < 5 ==> path[k] != '/';
    assert Boundary(path, 5) && path[..5] == path;
    forall f | f in FoldersFrom(path, 0)
      ensures f == path
    {
      var k :| 0 < k <= |path| && Boundary(path, k) && f == path[..k];
      assert k == 5;
    }
  }

  lemma IssuerPath(file: Text)
    requires file in ["iss-1.pem", "iss-2.pem"]
    ensures GoodPath(Path3("cert1", "issuer", file))
    ensures forall f :: f in FileFolders(Path3("cert1", "issuer", file)) ==> f == "cert1" || f == Path2("cert1", "issuer")
  {
    hide FileFolders, FoldersFrom, GoodPath;
    IssuerPathIsGood(file);
    var folder := Path2("cert1", "issuer");
    assert Path3("cert1", "issuer", file) == folder + "/" + file;
    FoldersOfFile(folder, file);
    TopFolder();
    FoldersWithPart("cert1", "issuer");
  }

  lemma IssuerPathIsGood(file: Text)
    requires file in ["iss-1.pem", "iss-2.pem"]
    ensures GoodPath(Path3("cert1", "issuer", file))
  {
    hide GoodPath, Join, PlainPart;
    JoinIsPath("cert1", "issuer", file, file);
    TopIsPlain();
    IssuerIsPlain();
    IssuerFileIsPlain(file);
    PlainPathIsGood(["cert1", "issuer", file]);
  }

  lemma IssuerIsPlain()
    ensures PlainPart("issuer")
  {
  }

  lemma IssuerFileIsPlain(file: Text)
    requires file in ["iss-1.pem", "iss-2.pem"]
    ensures PlainPart(file)
  {
  }

  /** Everything of the request is in the response unchanged, and each answer at its place. */
  predicate KeepsAndAnswers(t: Tree, csrs: seq<CsrEntry>, answers: seq<Text>, r: Tree)
    requires |csrs| == |answers|
  {
    t.folders <= r.folders &&
    (forall p :: p in t.files ==> p in r.files && r.files[p] == t.files[p]) &&
    forall k :: 0 <= k < |csrs| ==> csrs[k].oprPath in r.files && r.files[csrs[k].oprPath] == answers[k]
  }

  predicate NotIssuerPaths(t: Tree, csrs: seq<CsrEntry>, file: Text) {
    Path3("cert1", "issuer", file) !in t.files &&
    forall k :: 0 <= k < |csrs| ==> csrs[k].oprPath != Path3("cert1", "issuer", file)
  }

  lemma IssuerKeepsAnswers(t: Tree, csrs: seq<CsrEntry>, answers: seq<Text>, r: Tree, file: Text, issuer: Option<Text>)
    requires |csrs| == |answers| && KeepsAndAnswers(t, csrs, answers, r) && NotIssuerPaths(t, csrs, file)
    requires file in ["iss-1.pem", "iss-2.pem"]
    ensures KeepsAndAnswers(t, csrs, answers, WithIssuer(r, file, issuer))
  {
    hide WithFile, Path3, GoodPath, FileFolders;
    if issuer.Some? {
      IssuerPath(file);
      FileAdds(r, Path3("cert1", "issuer", file), issuer.value);
    }
  }

  lemma NoIssuersInRequest(t: Tree, file: Text)
    requires WellFormed(t) && LegalTree(t, false) && file in ["iss-1.pem", "iss-2.pem"]
    ensures NotIssuerPaths(t, Csrs(t), file)
  {
    hide Split, LegalFile, LegalFolder, Path3, Path2, DeviceFolderAt, PortFolderAt, Csrs, IsSafeZipPath, ParentsIn, IsCsr, CsrOf,
      HasEntry;
    var path := Path3("cert1", "issuer", file);
    SplitPath("cert1", "issuer", file, []);
    if path in t.files {
      LegalFileIsFaultless(path, |t.files[path]|, false);
      assert false;
    }
    OneEntryEach(t);
    forall k | 0 <= k < |Csrs(t)|
      ensures Csrs(t)[k].oprPath != path
    {
      PathIsGood(t, Csrs(t)[k].csrPath);
      PartsOfPaths(t, Csrs(t)[k].csrPath);
    }
  }

  lemma ResponseKeepsAndAnswers(t: Tree, answers: seq<Text>, issuer1: Option<Text>, issuer2: Option<Text>)
    requires WellFormed(t) && LegalTree(t, false)
    requires |answers| == |Csrs(t)| && forall k :: 0 <= k < |answers| ==> |answers[k]| <= MAX_PEM
    ensures KeepsAndAnswers(t, Csrs(t), answers, Response(t, Csrs(t), answers, issuer1, issuer2))
  {
    hide LegalTree, Csrs, WellFormed, WithIssuer, Answered, NotIssuerPaths;
    ResponseIsLegal(t, answers, issuer1, issuer2);
    NoIssuersInRequest(t, "iss-1.pem");
    NoIssuersInRequest(t, "iss-2.pem");
    var answered := Answered(t, Csrs(t), answers);
    IssuerKeepsAnswers(t, Csrs(t), answers, answered, "iss-1.pem", issuer1);
    IssuerKeepsAnswers(t, Csrs(t), answers, WithIssuer(answered, "iss-1.pem", issuer1), "iss-2.pem", issuer2);
  }

  /** Validate has no problem with the response to a request it has no problem with. */
  lemma ResponseHasNoProblems(t: Tree, answers: seq<Text>, issuer1: Option<Text>, issuer2: Option<Text>)
    requires WellFormed(t) && [] !in t.folders && [] !in t.files && Problems(t, false) == []
    requires |answers| == |Csrs(t)| && forall k :: 0 <= k < |answers| ==> |answers[k]| <= MAX_PEM
    ensures Problems(t, true) == []
    ensures var r := Response(t, Csrs(t), answers, issuer1, issuer2);
            WellFormed(r) && [] !in r.folders && [] !in r.files && Problems(r, true) == [] &&
            KeepsAndAnswers(t, Csrs(t), answers, r)
  {
    hide LegalTree, Csrs, WellFormed, Response, Problems, HasAnswers, Answered, KeepsAndAnswers;
    NoProblemsIffLegal(t, false);
    ResponseKeepsAndAnswers(t, answers, issuer1, issuer2);
    ResponseIsLegal(t, answers, issuer1, issuer2);
    RequestIsResponse(t);
    NoProblemsIffLegal(t, true);
    NoProblemsIffLegal(Response(t, Csrs(t), answers, issuer1, issuer2), true);
  }
}
