/** The verdicts on CARI paths told by the paths themselves: which are safe, what is wrong with each kind of path, and
    which are requests (cari.cpp). */
module CariTold {
  import opened Octets
  import opened CariPath
  import opened CariTree
  import opened TextOrder
  import opened CariRules
  import opened CariLegal
  import opened CariAnswer

  // ---- Safe paths ---------------------------------------------------------

  /** What stands between two '/', or before the first or after the last; not the nothing behind a last '/'. */
  predicate IsSegment(path: Text, i: nat, j: nat) {
    i <= j <= |path| && i < |path| && (i == 0 || path[i - 1] == '/') && (j == |path| || path[j] == '/') &&
    forall k :: i <= k < j ==> path[k] != '/'
  }

  lemma {:induction false} PartsAreSegments(path: Text, part: Text)
    ensures part in Split(path) <==> exists i: nat, j: nat :: IsSegment(path, i, j) && path[i..j] == part
    decreases |path|
  {
    if path != [] {
      var s := NextSlash(path, 0);
      SplitFirst(path);
      hide Split, NextSlash;
      assert IsSegment(path, 0, s);
      if s < |path| {
        var rest := path[s + 1..];
        PartsAreSegments(rest, part);
        if part in Split(rest) {
          var i: nat, j: nat :| IsSegment(rest, i, j) && rest[i..j] == part;
          SegmentFurther(path, s + 1, i, j);
        }
        forall i: nat, j: nat | IsSegment(path, i, j) && path[i..j] == part
          ensures part == path[..s] || part in Split(rest)
        {
          if i > s {
            SegmentNearer(path, s, i, j);
          } else {
            FirstSegment(path, s, i, j);
          }
        }
      } else {
        forall i: nat, j: nat | IsSegment(path, i, j) && path[i..j] == part
          ensures part == path[..s]
        {
          FirstSegment(path, s, i, j);
        }
      }
    }
  }

  lemma FirstSegment(path: Text, s: nat, i: nat, j: nat)
    requires IsSegment(path, 0, s) && IsSegment(path, i, j) && i <= s
    ensures i == 0 && j == s
  {
  }

  lemma SegmentFurther(path: Text, n: nat, i: nat, j: nat)
    requires 0 < n <= |path| && path[n - 1] == '/' && IsSegment(path[n..], i, j)
    ensures IsSegment(path, n + i, n + j) && path[n + i..n + j] == path[n..][i..j]
  {
    forall k | n + i <= k < n + j
      ensures path[k] != '/'
    {
      assert path[k] == path[n..][k - n];
    }
  }

  lemma SegmentNearer(path: Text, s: nat, i: nat, j: nat)
    requires s < |path| && path[s] == '/' && IsSegment(path, i, j) && i > s
    ensures IsSegment(path[s + 1..], i - s - 1, j - s - 1) && path[s + 1..][i - s - 1..j - s - 1] == path[i..j]
  {
  }

  /** A path is safe exactly if it does not start at the root, has no '\\', ':' or control character, and between its
      slashes there is never nothing, "." or "..": it cannot leave the folder it is unpacked in. */
  lemma SafeIff(path: Text)
    ensures IsSafeZipPath(path) <==>
            path != [] && path[0] != '/' && '\\' !in path && ':' !in path &&
            (forall k :: 0 <= k < |path| ==> path[k] as int >= 0x20 && path[k] as int != 0x7F) &&
            forall i: nat, j: nat :: IsSegment(path, i, j) ==> path[i..j] != "" && path[i..j] != "." && path[i..j] != ".."
  {
    hide Split;
    forall part
      ensures part in Split(path) <==> exists i: nat, j: nat :: IsSegment(path, i, j) && path[i..j] == part
    {
      PartsAreSegments(path, part);
    }
    if IsSafeZipPath(path) {
      forall k | 0 <= k < |path|
        ensures path[k] as int >= 0x20 && path[k] as int != 0x7F
      {
        if path[k] != '/' {
          var i, j := SegmentAround(path, k);
          assert path[i..j][k - i] == path[k] && path[i..j] in Split(path);
        }
      }
      forall i: nat, j: nat | IsSegment(path, i, j)
        ensures path[i..j] != "" && path[i..j] != "." && path[i..j] != ".."
      {
        assert path[i..j] in Split(path);
      }
    } else if path != [] && path[0] != '/' && '\\' !in path && ':' !in path {
      var part :| part in Split(path) && !GoodPart(part);
      var i: nat, j: nat :| IsSegment(path, i, j) && path[i..j] == part;
      if part != [] && part != "." && part != ".." {
        var k :| 0 <= k < |part| && !(part[k] >= ' ' && part[k] as int != 0x7F);
        assert path[i + k] == part[k];
      }
    }
  }

  lemma {:induction false} SegmentAround(path: Text, k: nat) returns (i: nat, j: nat)
    requires k < |path| && path[k] != '/'
    ensures IsSegment(path, i, j) && i <= k < j
  {
    i, j := k, k;
    while i > 0 && path[i - 1] != '/'
      invariant i <= k && forall m :: i <= m <= k ==> path[m] != '/'
    {
      i := i - 1;
    }
    while j < |path| && path[j] != '/'
      invariant k <= j <= |path| && forall m :: k <= m < j ==> path[m] != '/'
    {
      j := j + 1;
    }
  }

  /** Legal names, by octets: 1 to 128 of them, none a control character, and none of the nine that file systems
      reserve. */
  lemma NameIff(text: Text)
    ensures IsValidName(text) <==>
            1 <= |text| <= 128 &&
            forall k :: 0 <= k < |text| ==>
              var c := text[k] as int;
              c >= 0x20 && c != 0x7F && c !in {0x22, 0x2A, 0x2F, 0x3A, 0x3C, 0x3E, 0x3F, 0x5C, 0x7C}
  {
    forall k | 0 <= k < |text|
      ensures text[k] in "<>:\"/\\|?*" <==> text[k] as int in {0x22, 0x2A, 0x2F, 0x3A, 0x3C, 0x3E, 0x3F, 0x5C, 0x7C}
    {
      NameOctet(text[k]);
    }
  }

  lemma NameOctet(c: Octet)
    ensures c in "<>:\"/\\|?*" <==> c as int in {0x22, 0x2A, 0x2F, 0x3A, 0x3C, 0x3E, 0x3F, 0x5C, 0x7C}
  {
    var r := "<>:\"/\\|?*";
    assert r[0] == '<' && r[1] == '>' && r[2] == ':' && r[3] == '\"' && r[4] == '/' && r[5] == '\\' && r[6] == '|' &&
           r[7] == '?' && r[8] == '*';
  }

  // ---- What is wrong with a path ------------------------------------------

  /** The files in cert1/ itself. */
  lemma TopFileFaults(name: Text, size: nat, response: bool)
    requires name != [] && '/' !in name
    ensures FileFault(Path2("cert1", name), size, response) ==
            if name == "vendor-data" then if size > 1048576 then Some(VendorDataTooLarge) else None
            else if name == "request-notes.txt" || (response && name == "response-notes.txt") then
              if size > 10240 then Some(NotesTooLarge) else None
            else if response && name == "errors.txt" then None
            else Some(NotCariFile)
  {
    hide Split, Path2, Path3;
    SplitPath("cert1", name, [], []);
  }

  /** The files in the issuer folder, and in any other folder of cert1/. */
  lemma ThirdLevelFaults(folder: Text, name: Text, size: nat, response: bool)
    requires folder != [] && name != [] && '/' !in folder && '/' !in name
    ensures FileFault(Path3("cert1", folder, name), size, response) ==
            if folder != "issuer" then Some(NoPlace)
            else if !response then Some(IssuerInRequest)
            else if name == "iss-1.pem" || name == "iss-2.pem" then None
            else Some(NotIssuerFile)
  {
    hide Split, Path2, Path3;
    SplitPath("cert1", folder, name, []);
  }

  /** The files in a port folder, and in any other folder there. */
  lemma PortFileFaults(device: Text, port: Text, name: Text, size: nat, response: bool)
    requires device != [] && port != [] && name != [] && '/' !in device && '/' !in port && '/' !in name
    ensures FileFault(Path4("cert1", device, port, name), size, response) ==
            if !IsDevice(device) || !StartsWith(port, "port-") then Some(NoPlace)
            else if !IsFileName(name, "csr-") && !IsFileName(name, "key-") && !(response && IsFileName(name, "opr-"))
              then Some(BadPortFile)
            else if size > 65536 then Some(PemTooLarge)
            else None
  {
    hide Split, Path2, Path3, Path4, IsDevice, StartsWith, FileName, IsFileName;
    SplitPath("cert1", device, port, name);
    FileNames(name, "csr-");
    FileNames(name, "key-");
    FileNames(name, "opr-");
  }

  /** Whatever is not in cert1/. */
  lemma OutsideFaults(top: Text, name: Text, size: nat, response: bool)
    requires top != [] && name != [] && '/' !in top && '/' !in name && top != "cert1"
    ensures FileFault(top, size, response) == FileFault(Path2(top, name), size, response) == Some(OutsideCert1)
    ensures FolderFault(top, response) == FolderFault(Path2(top, name), response) == Some(OutsideCert1)
  {
    hide Split, Path2;
    SplitPath(top, name, [], []);
  }

  /** The folders. */
  lemma FolderFaults(device: Text, port: Text, below: Text, response: bool)
    requires device != [] && port != [] && below != [] && '/' !in device && '/' !in port && '/' !in below
    ensures FolderFault("cert1", response) == None
    ensures FolderFault(Path2("cert1", "issuer"), response) == if response then None else Some(IssuerInRequest)
    ensures device != "issuer" ==>
              FolderFault(Path2("cert1", device), response) == if IsDevice(device) then None else Some(BadDeviceFolder)
    ensures FolderFault(Path3("cert1", device, port), response) ==
            if !IsDevice(device) then Some(BadDeviceFolder)
            else if port == "router" || IsPort(port) then None
            else Some(BadPortFolder)
    ensures FolderFault(Path4("cert1", device, port, below), response) ==
            if !IsDevice(device) then Some(BadDeviceFolder)
            else if !IsPort(port) then Some(BadPortFolder)
            else if below == "hub" then None
            else Some(UnexpectedFolder)
  {
    hide Split, Path2, Path3, Path4, IsDevice, IsPort;
    SplitPath("cert1", "issuer", [], []);
    SplitPath("cert1", device, port, below);
  }

  // ---- Which problems are reported ----------------------------------------

  lemma {:induction false} FolderProblemIff(folders: seq<Text>, response: bool, p: Problem)
    requires [] !in folders
    ensures p in FolderProblems(folders, response) <==>
            p.path in folders && FolderFault(p.path, response) == Some(p.fault)
    decreases |folders|
  {
    hide FolderFault;
    if folders != [] {
      FolderProblemIff(folders[1..], response, p);
      assert folders == [folders[0]] + folders[1..];
    }
  }

  lemma {:induction false} FileProblemIff(paths: seq<Text>, files: map<Text, Text>, response: bool, p: Problem)
    requires [] !in paths && forall path :: path in paths ==> path in files
    ensures p in FileProblems(paths, files, response) <==>
            p.path in paths && FileFault(p.path, |files[p.path]|, response) == Some(p.fault)
    decreases |paths|
  {
    hide FileFault;
    if paths != [] {
      FileProblemIff(paths[1..], files, response, p);
      assert paths == [paths[0]] + paths[1..];
    }
  }

  lemma {:induction false} PortProblemIff(folders: seq<Text>, devicesWithPort: set<Text>, p: Problem)
    ensures p in PortProblems(folders, devicesWithPort) <==>
            p.path in folders && LacksPort(p.path, devicesWithPort) && p.fault == DeviceWithoutPort
    decreases |folders|
  {
    hide LacksPort;
    if folders != [] {
      PortProblemIff(folders[1..], devicesWithPort, p);
      assert folders == [folders[0]] + folders[1..];
    }
  }

  /** Exactly these problems are reported: what is wrong with each folder and file by itself, that there is no device,
      and each device folder without a port. */
  lemma ProblemIff(t: Tree, response: bool, p: Problem)
    requires [] !in t.folders && [] !in t.files
    ensures p in Problems(t, response) <==>
            (p.path in t.folders && FolderFault(p.path, response) == Some(p.fault)) ||
            (p.path in t.files && FileFault(p.path, |t.files[p.path]|, response) == Some(p.fault)) ||
            (p == Problem("cert1/", NoDevice) && !exists f :: f in t.folders && IsDeviceFolder(f)) ||
            (p.path in t.folders && p.fault == DeviceWithoutPort && LacksPort(p.path, DevicesWithPort(t.folders)))
  {
    hide FolderFault, FileFault, LacksPort, DevicesWithPort, FolderProblems, FileProblems, PortProblems, IsDeviceFolder;
    FolderProblemIff(Sorted(t.folders), response, p);
    FileProblemIff(Sorted(t.files.Keys), t.files, response, p);
    PortProblemIff(Sorted(t.folders), DevicesWithPort(t.folders), p);
  }

  // ---- Which files are requests, and what is told of them -----------------

  /** A request, by the parts of its path, and what the tree holds beside it. */
  predicate Tells(t: Tree, e: CsrEntry, device: Text, port: Text, name: Text) {
    var key := Path4("cert1", device, port, "key-" + name + ".pem");
    DeviceInstance(device).Some? && StartsWith(port, "port-") && '/' !in port && IsValidName(name) &&
    e == CsrEntry(device, DeviceInstance(device).value, port, name,
                  Path4("cert1", device, port, "csr-" + name + ".pem"),
                  Path4("cert1", device, port, "opr-" + name + ".pem"), if key in t.files then key else "",
                  Path4("cert1", device, port, "hub") in t.folders, Path3("cert1", device, "router") in t.folders)
  }

  lemma CsrTells(t: Tree, path: Text)
    requires GoodPath(path) && IsCsr(path)
    ensures var e := CsrOf(t, path); e.csrPath == path && Tells(t, e, e.deviceFolder, e.portFolder, e.name)
  {
    var e := CsrOf(t, path);
    PathsOfCsr(t, path);
    CsrParts(t, path);
    hide Split, IsValidName, StartsWith, IsSafeZipPath, FileName, DeviceInstance, CsrOf;
    PlacesAgree(e.deviceFolder, e.portFolder, e.name);
  }

  lemma CsrParts(t: Tree, path: Text)
    requires IsCsr(path)
    ensures var e := CsrOf(t, path);
            var place := "cert1/" + e.deviceFolder + "/" + e.portFolder;
            var key := place + "/key-" + e.name + ".pem";
            DeviceInstance(e.deviceFolder) == Some(e.deviceInstance) &&
            e.keyPath == (if key in t.files then key else "") && e.isHubPort == (place + "/hub" in t.folders) &&
            e.isRouter == ("cert1/" + e.deviceFolder + "/router" in t.folders)
  {
  }

  lemma PlacesAgree(device: Text, port: Text, name: Text)
    ensures "cert1/" + device + "/" + port + "/key-" + name + ".pem" == Path4("cert1", device, port, "key-" + name + ".pem")
    ensures "cert1/" + device + "/" + port + "/hub" == Path4("cert1", device, port, "hub")
    ensures "cert1/" + device + "/router" == Path3("cert1", device, "router")
  {
    assert "cert1/" + device == "cert1" + "/" + device && "/key-" + name == "/" + ("key-" + name);
    Regroup("cert1" + "/" + device, "/" + port, "/" + ("key-" + name + ".pem"));
    Regroup("cert1" + "/" + device, "/" + port, "/" + "hub");
  }

  lemma TellsIsCsr(t: Tree, e: CsrEntry, device: Text, port: Text, name: Text)
    requires Tells(t, e, device, port, name)
    ensures IsCsr(e.csrPath) && CsrOf(t, e.csrPath).deviceFolder == device &&
            CsrOf(t, e.csrPath).portFolder == port && CsrOf(t, e.csrPath).name == name
  {
    hide Split, IsValidName, StartsWith, FileName, DeviceInstance, Path3, Path4;
    var file := "csr-" + name + ".pem";
    FileNameIff(file, "csr-", name);
    DeviceNoSlash(device);
    FileNameNoSlash(file, "csr-");
    SplitPath("cert1", device, port, file);
  }

  /** ListCsrs tells exactly of the files that are requests by the names of their folders and of themselves. */
  lemma CsrEntryIff(t: Tree, e: CsrEntry)
    requires WellFormed(t)
    ensures e in Csrs(t) <==>
            e.csrPath in t.files && exists device, port, name :: Tells(t, e, device, port, name)
  {
    hide Csrs, IsCsr, Tells, IsSafeZipPath, CsrOf, ParentsIn;
    OneEntryEach(t);
    if e in Csrs(t) {
      var k :| 0 <= k < |Csrs(t)| && Csrs(t)[k] == e;
      CsrTells(t, e.csrPath);
    }
    if e.csrPath in t.files && exists device, port, name :: Tells(t, e, device, port, name) {
      var device, port, name :| Tells(t, e, device, port, name);
      TellsIsCsr(t, e, device, port, name);
      CsrTells(t, e.csrPath);
      SameTelling(t, e, CsrOf(t, e.csrPath), device, port, name);
      var k :| 0 <= k < |Csrs(t)| && Csrs(t)[k].csrPath == e.csrPath;
    }
  }

  lemma SameTelling(t: Tree, e: CsrEntry, f: CsrEntry, device: Text, port: Text, name: Text)
    requires Tells(t, e, device, port, name) && Tells(t, f, device, port, name)
    ensures e == f
  {
  }
}
