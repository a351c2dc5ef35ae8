/** Validate accepts exactly the trees that the file and folder names of a CARI file allow. */
module CariLegal {
  import opened Octets
  import opened CariPath
  import opened CariTree
  import opened TextOrder
  import opened CariRules
  import opened Decimal

  // ---- The legal names, as the format lists them --------------------------

  function Path2(a: Text, b: Text): Text {
    a + "/" + b
  }

  function Path3(a: Text, b: Text, c: Text): Text {
    a + "/" + Path2(b, c)
  }

  function Path4(a: Text, b: Text, c: Text, d: Text): Text {
    a + "/" + Path3(b, c, d)
  }

  ghost predicate IsFileName(file: Text, prefix: Text)
    requires '.' !in prefix
  {
    exists name :: IsValidName(name) && file == prefix + name + ".pem"
  }

  predicate DeviceFolderAt(folder: Text, device: Text) {
    IsDevice(device) && folder == Path2("cert1", device)
  }

  predicate PortFolderAt(folder: Text, device: Text, port: Text) {
    IsDevice(device) && IsPort(port) && folder == Path3("cert1", device, port)
  }

  /** cert1/, issuer/ in a response, a device folder and its router/, a port folder and its hub/. */
  ghost predicate LegalFolder(folder: Text, response: bool) {
    folder == "cert1" ||
    (response && folder == Path2("cert1", "issuer")) ||
    (exists device :: DeviceFolderAt(folder, device)) ||
    (exists device :: IsDevice(device) && folder == Path3("cert1", device, "router")) ||
    (exists device, port :: PortFolderAt(folder, device, port)) ||
    (exists device, port :: IsDevice(device) && IsPort(port) && folder == Path4("cert1", device, port, "hub"))
  }

  /** A csr-, key- or, in a response, opr- file in a port folder. */
  ghost predicate PortFileAt(path: Text, response: bool, device: Text, port: Text, file: Text) {
    IsDevice(device) && StartsWith(port, "port-") && '/' !in port && path == Path4("cert1", device, port, file) &&
    (IsFileName(file, "csr-") || IsFileName(file, "key-") || (response && IsFileName(file, "opr-")))
  }

  ghost predicate LegalFile(path: Text, size: nat, response: bool) {
    (path == Path2("cert1", "vendor-data") && size <= MAX_VENDOR_DATA) ||
    (path == Path2("cert1", "request-notes.txt") && size <= MAX_NOTES) ||
    (response && path == Path2("cert1", "response-notes.txt") && size <= MAX_NOTES) ||
    (response && path == Path2("cert1", "errors.txt")) ||
    (response && path in [Path3("cert1", "issuer", "iss-1.pem"), Path3("cert1", "issuer", "iss-2.pem")]) ||
    (size <= MAX_PEM && exists device, port, file :: PortFileAt(path, response, device, port, file))
  }

  ghost predicate LegalTree(t: Tree, response: bool) {
    (forall f :: f in t.folders ==> LegalFolder(f, response)) &&
    (forall f :: f in t.files ==> LegalFile(f, |t.files[f]|, response)) &&
    (exists f, device :: f in t.folders && DeviceFolderAt(f, device)) &&
    (forall f, device :: f in t.folders && DeviceFolderAt(f, device) ==>
       exists g, port :: g in t.folders && PortFolderAt(g, device, port))
  }

  // ---- Names and parts ----------------------------------------------------

  lemma DeviceNoSlash(part: Text)
    requires IsDevice(part)
    ensures '/' !in part && part != [] && part != "issuer" && IsDigits(part[7..])
  {
    assert forall k :: 7 <= k < |part| ==> part[k] == part[7..][k - 7];
    assert forall k :: 0 <= k < 7 ==> part[k] == "device-"[k];
  }

  lemma PortNoSlash(part: Text)
    requires IsPort(part)
    ensures '/' !in part && part != [] && part != "router"
  {
    assert forall k :: 5 <= k < |part| ==> part[k] == part[5..][k - 5];
    assert forall k :: 0 <= k < 5 ==> part[k] == "port-"[k];
    assert part[0] != "router"[0];
  }

  /** FileName finds the name exactly in "<prefix><name>.pem". */
  lemma FileNameIff(file: Text, prefix: Text, name: Text)
    requires '.' !in prefix
    ensures FileName(file, prefix) == Some(name) <==> IsValidName(name) && file == prefix + name + ".pem"
  {
    hide IsValidName;
    if FileName(file, prefix).Some? {
      PrefixAndEnding(file, prefix);
      CutName(file, prefix);
    }
    PasteName(prefix, name);
  }

  lemma CutName(file: Text, prefix: Text)
    requires StartsWith(file, prefix) && EndsWith(file, ".pem") && |file| >= |prefix| + 4
    ensures file == prefix + file[|prefix|..|file| - 4] + ".pem"
  {
    assert forall k :: 0 <= k < |prefix| ==> file[k] == prefix[k];
    assert forall k :: 0 <= k < 4 ==> file[|file| - 4 + k] == ".pem"[k];
  }

  lemma PasteName(prefix: Text, name: Text)
    ensures var whole := prefix + name + ".pem";
            StartsWith(whole, prefix) && EndsWith(whole, ".pem") && whole[|prefix|..|whole| - 4] == name
  {
    var whole := prefix + name + ".pem";
    assert forall k :: 0 <= k < 4 ==> whole[|whole| - 4 + k] == ".pem"[k];
  }

  lemma FileNames(file: Text, prefix: Text)
    requires '.' !in prefix
    ensures FileName(file, prefix).Some? <==> IsFileName(file, prefix)
  {
    hide FileName, IsValidName;
    if FileName(file, prefix).Some? {
      FileNameIff(file, prefix, FileName(file, prefix).value);
    }
    if name :| IsValidName(name) && file == prefix + name + ".pem" {
      FileNameIff(file, prefix, name);
    }
  }

  lemma FileNameNoSlash(file: Text, prefix: Text)
    requires '.' !in prefix && '/' !in prefix && IsFileName(file, prefix)
    ensures '/' !in file && file != []
  {
    var name :| IsValidName(name) && file == prefix + name + ".pem";
    assert '/' !in name;
  }

  /** A path of up to four parts, put together from them. */
  lemma PathFromParts(path: Text)
    requires Canonical(path)
    ensures var p := Split(path);
            (forall part :: part in p ==> '/' !in part) && |p| > 0 && (|p| == 1 ==> path == p[0]) &&
            (|p| == 2 ==> path == Path2(p[0], p[1])) && (|p| == 3 ==> path == Path3(p[0], p[1], p[2])) &&
            (|p| == 4 ==> path == Path4(p[0], p[1], p[2], p[3]))
  {
    hide Split, Join, Path2, Path3, Path4;
    NoSlashInParts(path);
    JoinSplit(path);
    var p := Split(path);
    var q := if |p| == 1 then p + p + p + p else if |p| == 2 then p + p else if |p| == 3 then p + p else p;
    JoinIsPath(q[0], q[1], if |p| < 3 then [] else q[2], if |p| < 4 then [] else q[3]);
    assert |p| == 1 ==> p == [p[0]];
    assert |p| == 2 ==> p == [p[0], p[1]];
    assert |p| == 3 ==> p == [p[0], p[1], p[2]];
    assert |p| == 4 ==> p == [p[0], p[1], p[2], p[3]];
  }

  /** And the parts of such a path. */
  lemma SplitPath(a: Text, b: Text, c: Text, d: Text)
    requires '/' !in a && '/' !in b && '/' !in c && '/' !in d
    ensures a != [] ==> Split(a) == [a]
    ensures b != [] ==> Split(Path2(a, b)) == [a, b]
    ensures c != [] ==> Split(Path3(a, b, c)) == [a, b, c]
    ensures d != [] ==> Split(Path4(a, b, c, d)) == [a, b, c, d]
  {
    hide Split, Join, Path2, Path3, Path4;
    JoinIsPath(a, b, c, d);
    if a != [] {
      SplitJoin([a]);
    }
    if b != [] {
      SplitJoin([a, b]);
    }
    if c != [] {
      SplitJoin([a, b, c]);
    }
    if d != [] {
      SplitJoin([a, b, c, d]);
    }
  }

  lemma JoinIsPath(a: Text, b: Text, c: Text, d: Text)
    ensures Join([a]) == a && Join([a, b]) == Path2(a, b)
    ensures Join([a, b, c]) == Path3(a, b, c) && Join([a, b, c, d]) == Path4(a, b, c, d)
  {
    JoinOne(d);
    JoinOne(c);
    JoinOne(b);
    JoinOne(a);
    JoinMore(c, [d]);
    JoinMore(b, [c]);
    JoinMore(b, [c, d]);
    JoinMore(a, [b]);
    JoinMore(a, [b, c]);
    JoinMore(a, [b, c, d]);
  }

  lemma JoinOne(a: Text)
    ensures Join([a]) == a
  {
  }

  lemma JoinMore(a: Text, rest: seq<Text>)
    requires rest != []
    ensures Join([a] + rest) == a + "/" + Join(rest)
  {
    assert ([a] + rest)[1..] == rest;
  }

  /** A part that may stand in a safe path. */
  predicate PlainPart(part: Text) {
    GoodPart(part) && '\\' !in part && ':' !in part && '/' !in part
  }

  lemma {:induction false} JoinPlain(parts: seq<Text>)
    requires parts != [] && forall part :: part in parts ==> PlainPart(part)
    ensures var path := Join(parts);
            path != [] && path[0] != '/' && '\\' !in path && ':' !in path
    decreases |parts|
  {
    hide Join;
    assert PlainPart(parts[0]);
    if |parts| == 1 {
      assert parts == [parts[0]];
      JoinOne(parts[0]);
    } else {
      assert parts == [parts[0]] + parts[1..];
      JoinMore(parts[0], parts[1..]);
      JoinPlain(parts[1..]);
    }
  }

  lemma TopIsPlain()
    ensures PlainPart("cert1")
  {
  }

  /** Plain parts make a safe path. */
  lemma PlainPathIsGood(parts: seq<Text>)
    requires parts != [] && forall part :: part in parts ==> PlainPart(part)
    ensures GoodPath(Join(parts))
  {
    hide Split, Join;
    assert PlainPart(parts[|parts| - 1]);
    SplitJoin(parts);
    JoinPlain(parts);
  }

  // ---- A legal path is one without a fault --------------------------------

  lemma FaultlessFolderIsLegal(folder: Text, response: bool)
    requires Canonical(folder) && FolderFault(folder, response).None?
    ensures LegalFolder(folder, response)
  {
    hide Split, IsDevice, IsPort, Path2, Path3, Path4;
    PathFromParts(folder);
    var p := Split(folder);
    if |p| == 2 && p[1] != "issuer" {
      assert DeviceFolderAt(folder, p[1]);
    } else if |p| == 3 && p[2] != "router" {
      assert PortFolderAt(folder, p[1], p[2]);
    }
  }

  lemma LegalFolderIsFaultless(folder: Text, response: bool)
    requires folder != [] && LegalFolder(folder, response)
    ensures FolderFault(folder, response).None?
  {
    hide Split, IsDevice, IsPort, Path2, Path3, Path4;
    if folder == "cert1" || (response && folder == Path2("cert1", "issuer")) {
      SplitPath("cert1", "issuer", [], []);
    } else if device :| DeviceFolderAt(folder, device) {
      DeviceFolderParts(folder, device);
    } else if device :| IsDevice(device) && folder == Path3("cert1", device, "router") {
      DeviceNoSlash(device);
      SplitPath("cert1", device, "router", []);
    } else if device, port :| PortFolderAt(folder, device, port) {
      PortFolderParts(folder, device, port);
    } else {
      var device, port :| IsDevice(device) && IsPort(port) && folder == Path4("cert1", device, port, "hub");
      DeviceNoSlash(device);
      PortNoSlash(port);
      SplitPath("cert1", device, port, "hub");
    }
  }

  lemma DeviceFolderParts(folder: Text, device: Text)
    requires DeviceFolderAt(folder, device)
    ensures Split(folder) == ["cert1", device] && IsDeviceFolder(folder) && device != "issuer"
  {
    hide Split, IsDevice, Path2;
    DeviceNoSlash(device);
    SplitPath("cert1", device, [], []);
  }

  lemma PortFolderParts(folder: Text, device: Text, port: Text)
    requires PortFolderAt(folder, device, port)
    ensures Split(folder) == ["cert1", device, port] && IsPortFolder(folder) && device != "issuer" && port != "router"
  {
    hide Split, IsDevice, IsPort, Path3;
    DeviceNoSlash(device);
    PortNoSlash(port);
    SplitPath("cert1", device, port, []);
  }

  lemma FaultlessFileIsLegal(path: Text, size: nat, response: bool)
    requires Canonical(path) && FileFault(path, size, response).None?
    ensures LegalFile(path, size, response)
  {
    hide Split, IsDevice, FileName, IsFileName, Path2, Path3, Path4;
    PathFromParts(path);
    var p := Split(path);
    if |p| == 4 {
      FileNames(p[3], "csr-");
      FileNames(p[3], "key-");
      FileNames(p[3], "opr-");
      assert p[2] in p;
      assert PortFileAt(path, response, p[1], p[2], p[3]);
    }
  }

  lemma LegalFileIsFaultless(path: Text, size: nat, response: bool)
    requires path != [] && LegalFile(path, size, response)
    ensures FileFault(path, size, response).None?
  {
    hide Split, IsDevice, FileName, IsFileName, Path2, Path3, Path4, PortFileAt, StartsWith;
    if path == Path2("cert1", "vendor-data") && size <= MAX_VENDOR_DATA {
      SplitPath("cert1", "vendor-data", [], []);
    } else if path == Path2("cert1", "request-notes.txt") && size <= MAX_NOTES {
      SplitPath("cert1", "request-notes.txt", [], []);
    } else if response && path == Path2("cert1", "response-notes.txt") && size <= MAX_NOTES {
      SplitPath("cert1", "response-notes.txt", [], []);
    } else if response && path == Path2("cert1", "errors.txt") {
      SplitPath("cert1", "errors.txt", [], []);
    } else if response && path == Path3("cert1", "issuer", "iss-1.pem") {
      SplitPath("cert1", "issuer", "iss-1.pem", []);
    } else if response && path == Path3("cert1", "issuer", "iss-2.pem") {
      SplitPath("cert1", "issuer", "iss-2.pem", []);
    } else {
      var device, port, file :| PortFileAt(path, response, device, port, file);
      PortFileParts(path, response, device, port, file);
    }
  }

  lemma PortFileParts(path: Text, response: bool, device: Text, port: Text, file: Text)
    requires PortFileAt(path, response, device, port, file)
    ensures Split(path) == ["cert1", device, port, file] && IsDevice(device) && StartsWith(port, "port-")
    ensures FileName(file, "csr-").Some? || FileName(file, "key-").Some? || (response && FileName(file, "opr-").Some?)
  {
    hide Split, IsDevice, FileName, IsFileName, Path4, StartsWith;
    DeviceNoSlash(device);
    FileNames(file, "csr-");
    FileNames(file, "key-");
    FileNames(file, "opr-");
    FileNameNoSlash(file, if IsFileName(file, "csr-") then "csr-" else if IsFileName(file, "key-") then "key-" else "opr-");
    SplitPath("cert1", device, port, file);
  }

  // ---- The whole tree -----------------------------------------------------

  /** What no problem means, path by path. */
  predicate Faultless(t: Tree, response: bool)
    requires [] !in t.folders && [] !in t.files
  {
    (forall f :: f in t.folders ==> FolderFault(f, response).None?) &&
    (forall f :: f in t.files ==> FileFault(f, |t.files[f]|, response).None?) &&
    HasDevice(t.folders) && forall f :: f in t.folders ==> !LacksPort(f, DevicesWithPort(t.folders))
  }

  lemma {:induction false} NoFolderProblems(folders: seq<Text>, response: bool)
    requires [] !in folders
    ensures FolderProblems(folders, response) == [] <==> forall f :: f in folders ==> FolderFault(f, response).None?
    decreases |folders|
  {
    hide FolderFault;
    if folders != [] {
      NoFolderProblems(folders[1..], response);
      assert folders == [folders[0]] + folders[1..];
    }
  }

  lemma {:induction false} NoFileProblems(paths: seq<Text>, files: map<Text, Text>, response: bool)
    requires [] !in paths && forall p :: p in paths ==> p in files
    ensures FileProblems(paths, files, response) == [] <==>
            forall p :: p in paths ==> FileFault(p, |files[p]|, response).None?
    decreases |paths|
  {
    hide FileFault;
    if paths != [] {
      NoFileProblems(paths[1..], files, response);
      assert paths == [paths[0]] + paths[1..];
    }
  }

  lemma {:induction false} NoPortProblems(folders: seq<Text>, devicesWithPort: set<Text>)
    ensures PortProblems(folders, devicesWithPort) == [] <==> forall f :: f in folders ==> !LacksPort(f, devicesWithPort)
    decreases |folders|
  {
    hide LacksPort;
    if folders != [] {
      NoPortProblems(folders[1..], devicesWithPort);
      assert folders == [folders[0]] + folders[1..];
    }
  }

  lemma NoProblems(t: Tree, response: bool)
    requires [] !in t.folders && [] !in t.files
    ensures Problems(t, response) == [] <==> Faultless(t, response)
  {
    hide FolderFault, FileFault, LacksPort, DevicesWithPort, HasDevice, FolderProblems, FileProblems, PortProblems;
    NoFolderProblems(Sorted(t.folders), response);
    NoFileProblems(Sorted(t.files.Keys), t.files, response);
    NoPortProblems(Sorted(t.folders), DevicesWithPort(t.folders));
  }

  /** Device folders with a port folder, in the two ways to say it. */
  lemma PortsIff(t: Tree, f: Text)
    requires WellFormed(t) && f in t.folders && IsDeviceFolder(f)
    ensures DeviceFolderAt(f, Split(f)[1])
    ensures !LacksPort(f, DevicesWithPort(t.folders)) <==>
            exists g, port :: g in t.folders && PortFolderAt(g, Split(f)[1], port)
  {
    hide Split, IsDevice, IsPort, Path2, Path3, ParentsIn, IsSafeZipPath;
    PathFromParts(f);
    var device := Split(f)[1];
    if device in DevicesWithPort(t.folders) {
      var g :| g in t.folders && IsPortFolder(g) && device == Split(g)[1];
      PathFromParts(g);
      assert PortFolderAt(g, device, Split(g)[2]);
    }
    if g, port :| g in t.folders && PortFolderAt(g, device, port) {
      PortFolderParts(g, device, port);
    }
  }

  lemma DeviceFoldersIff(t: Tree, f: Text, device: Text)
    requires WellFormed(t) && f in t.folders && DeviceFolderAt(f, device)
    ensures IsDeviceFolder(f) && Split(f)[1] == device
  {
    hide Split, IsDevice, Path2, ParentsIn, IsSafeZipPath;
    DeviceFolderParts(f, device);
  }

  lemma FaultlessIsLegal(t: Tree, response: bool)
    requires WellFormed(t) && Faultless(t, response)
    ensures LegalTree(t, response)
  {
    hide Split, FolderFault, FileFault, LegalFolder, LegalFile, IsDevice, DeviceFolderAt, PortFolderAt, LacksPort,
      DevicesWithPort, ParentsIn, IsSafeZipPath;
    forall f | f in t.folders
      ensures LegalFolder(f, response)
    {
      FaultlessFolderIsLegal(f, response);
    }
    forall f | f in t.files
      ensures LegalFile(f, |t.files[f]|, response)
    {
      FaultlessFileIsLegal(f, |t.files[f]|, response);
    }
    var some :| some in t.folders && IsDeviceFolder(some);
    PortsIff(t, some);
    assert DeviceFolderAt(some, Split(some)[1]);
    forall f, device | f in t.folders && DeviceFolderAt(f, device)
      ensures exists g, port :: g in t.folders && PortFolderAt(g, device, port)
    {
      DeviceFoldersIff(t, f, device);
      PortsIff(t, f);
      assert !LacksPort(f, DevicesWithPort(t.folders));
    }
  }

  lemma LegalIsFaultless(t: Tree, response: bool)
    requires WellFormed(t) && LegalTree(t, response)
    ensures Faultless(t, response)
  {
    hide Split, FolderFault, FileFault, LegalFolder, LegalFile, IsDevice, DeviceFolderAt, PortFolderAt, LacksPort,
      DevicesWithPort, ParentsIn, IsSafeZipPath;
    forall f | f in t.folders
      ensures FolderFault(f, response).None?
    {
      LegalFolderIsFaultless(f, response);
    }
    forall f | f in t.files
      ensures FileFault(f, |t.files[f]|, response).None?
    {
      LegalFileIsFaultless(f, |t.files[f]|, response);
    }
    var some, one :| some in t.folders && DeviceFolderAt(some, one);
    DeviceFoldersIff(t, some, one);
    forall f | f in t.folders
      ensures !LacksPort(f, DevicesWithPort(t.folders))
    {
      OnlyDevicesLackPorts(f, DevicesWithPort(t.folders), response);
      if IsDeviceFolder(f) {
        PortsIff(t, f);
        assert DeviceFolderAt(f, Split(f)[1]);
        var g, port :| g in t.folders && PortFolderAt(g, Split(f)[1], port);
      }
    }
  }

  lemma OnlyDevicesLackPorts(f: Text, devicesWithPort: set<Text>, response: bool)
    requires f != [] && FolderFault(f, response).None?
    ensures LacksPort(f, devicesWithPort) ==> IsDeviceFolder(f)
  {
    hide Split;
  }

  lemma NoEmptyPaths(t: Tree)
    requires WellFormed(t)
    ensures [] !in t.folders && [] !in t.files
  {
  }

  /** Validate finds no problem exactly in the trees that the format allows. */
  lemma NoProblemsIffLegal(t: Tree, response: bool)
    requires WellFormed(t)
    ensures [] !in t.folders && [] !in t.files && (Problems(t, response) == [] <==> LegalTree(t, response))
  {
    hide LegalTree, WellFormed, Problems, Faultless;
    NoEmptyPaths(t);
    NoProblems(t, response);
    if Faultless(t, response) {
      FaultlessIsLegal(t, response);
    }
    if LegalTree(t, response) {
      LegalIsFaultless(t, response);
    }
  }

  // ---- What a legal tree does and does not rule out -----------------------

  /** No path of a legal tree is both a folder and a file. */
  lemma FoldersAreNoFiles(t: Tree, response: bool)
    requires LegalTree(t, response)
    ensures t.folders !! t.files.Keys
  {
    hide LegalFolder, LegalFile, FolderFault, FileFault, Path2, Path3, Path4;
    forall f | f in t.folders && f in t.files
      ensures false
    {
      NoEmptyLegalFolder(f, response);
      LegalFolderIsFaultless(f, response);
      LegalFileIsFaultless(f, |t.files[f]|, response);
      FolderOrFile(f, |t.files[f]|, response);
    }
  }

  lemma NoEmptyLegalFolder(folder: Text, response: bool)
    requires LegalFolder(folder, response)
    ensures folder != []
  {
    hide IsDevice, IsPort;
  }

  lemma FolderOrFile(path: Text, size: nat, response: bool)
    requires path != []
    ensures FolderFault(path, response).Some? || FileFault(path, size, response).Some?
  {
    var p := Split(path);
    hide Split, DeviceInstance, FileName;
    if |p| >= 2 && IsDevice(p[1]) {
      DeviceFirst(p[1]);
    }
    if |p| == 4 && p[3] == "hub" {
      HubIsNoFile("csr-");
      HubIsNoFile("key-");
      HubIsNoFile("opr-");
    }
  }

  lemma DeviceFirst(part: Text)
    requires IsDevice(part)
    ensures part != [] && part[0] == 'd'
  {
    assert forall k :: 0 <= k < 7 ==> part[k] == "device-"[k];
  }

  lemma HubIsNoFile(prefix: Text)
    requires prefix != [] && '.' !in prefix && prefix[0] != 'h'
    ensures FileName("hub", prefix).None?
  {
  }

  /** A device folder's name, as the hub writes it. */
  function DeviceFolder(instance: nat): Text {
    "device-" + ToString(instance)
  }

  /** Two names are of the same device exactly when their numbers differ in leading zeros only; and a name is the one
      the hub writes exactly when its number has none. */
  lemma SameDeviceIff(a: Text, b: Text)
    requires IsDevice(a) && IsDevice(b)
    ensures DeviceInstance(a) == DeviceInstance(b) <==> Stripped(a[7..]) == Stripped(b[7..])
    ensures a == DeviceFolder(DeviceInstance(a).value) <==> |a| == 8 || a[7] != '0'
  {
    SameValueIff(a[7..], b[7..]);
    ToStringOfValue(a[7..]);
    assert a == "device-" + a[7..] by { assert a[..7] == "device-"; }
    assert DeviceFolder(DeviceInstance(a).value)[7..] == ToString(DeviceInstance(a).value);
  }

  /** Two folders for one device, each with a port. */
  function TwoFolders(a: Text, b: Text): Tree {
    Tree(map[], {"cert1", Path2("cert1", a), Path3("cert1", a, "port-1"),
                 Path2("cert1", b), Path3("cert1", b, "port-1")})
  }

  lemma TwoFoldersAreLegal(a: Text, b: Text, response: bool)
    requires IsDevice(a) && IsDevice(b)
    ensures LegalTree(TwoFolders(a, b), response)
  {
    hide IsDevice, IsPort, Path2, Path3;
    var t := TwoFolders(a, b);
    PortOne();
    assert DeviceFolderAt(Path2("cert1", a), a) && DeviceFolderAt(Path2("cert1", b), b);
    assert PortFolderAt(Path3("cert1", a, "port-1"), a, "port-1");
    assert PortFolderAt(Path3("cert1", b, "port-1"), b, "port-1");
    forall f, device | f in t.folders && DeviceFolderAt(f, device)
      ensures device == a || device == b
    {
      SplitOne();
      DeviceFolderParts(f, device);
      if f == Path2("cert1", a) {
        DeviceFolderParts(f, a);
      } else if f == Path2("cert1", b) {
        DeviceFolderParts(f, b);
      } else if f == Path3("cert1", a, "port-1") {
        PortFolderParts(f, a, "port-1");
      } else if f == Path3("cert1", b, "port-1") {
        PortFolderParts(f, b, "port-1");
      }
    }
  }

  lemma SplitOne()
    ensures Split("cert1") == ["cert1"]
  {
    SplitPath("cert1", [], [], []);
  }

  lemma PortOne()
    ensures IsPort("port-1")
  {
    assert "port-1"[5..] == "1";
  }

  /** So a legal tree can name one device twice. */
  lemma DeviceNamedTwice(response: bool)
    ensures DeviceInstance("device-1") == DeviceInstance("device-01") == Some(1)
    ensures LegalTree(TwoFolders("device-1", "device-01"), response)
  {
    assert "device-1"[7..] == "1" && "device-01"[7..] == "01";
    assert "01"[..1] == "0" && "0"[..0] == [] && "1"[..0] == [];
    assert Value([]) == 0;
    assert Value("0") == 0;
    assert Value("1") == 1 && Value("01") == 1;
    TwoFoldersAreLegal("device-1", "device-01", response);
  }
}
