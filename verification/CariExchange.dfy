/** From the hub's request to the response it imports (cert_tool.cpp over cari.cpp): the request it writes is a valid
    one, and a response that answers it is read back with the hub's certificate first. */
module CariExchange {
  import opened Octets
  import opened Decimal
  import opened CariPath
  import opened CariTree
  import opened TextOrder
  import opened ZipWrite
  import opened ZipRead
  import opened ZipRoundTrip
  import opened CariRules
  import opened CariLegal
  import opened CariAnswer
  import CertFiles
  import CertRun

  // ---- The request --------------------------------------------------------

  /** HubRequestZip, before it is written. */
  function HubRequest(device: Text, port: Text, csr: Text, notes: Text): Tree {
    WithFile(WithFolder(WithFile(EMPTY, Path4("cert1", device, port, "csr-hub.pem"), csr),
                        Path4("cert1", device, port, "hub")),
             Path2("cert1", "request-notes.txt"), notes)
  }

  function Pow10(k: nat): nat {
    if k == 0 then 1 else 10 * Pow10(k - 1)
  }

  lemma {:induction false} FewDigits(n: nat, k: nat)
    requires n < Pow10(k) && k > 0
    ensures |ToString(n)| <= k
    decreases k
  {
    if n >= 10 {
      FewDigits(n / 10, k - 1);
    }
  }

  /** Every device instance has a folder name that is read as that instance. */
  lemma DeviceFolderRead(instance: nat)
    requires instance <= MAX_INSTANCE
    ensures DeviceInstance(DeviceFolder(instance)) == Some(instance)
  {
    hide ToString, Value;
    assert Pow10(7) == 10000000 by {
      assert Pow10(2) == 100 && Pow10(4) == 10000 && Pow10(6) == 1000000;
    }
    FewDigits(instance, 7);
    ValueOfToString(instance);
    assert DeviceFolder(instance)[7..] == ToString(instance);
  }

  lemma DeviceIsGood(part: Text)
    requires IsDevice(part)
    ensures PlainPart(part)
  {
    hide Value;
    DeviceNoSlash(part);
    assert forall k :: 7 <= k < |part| ==> part[k] == part[7..][k - 7];
    assert forall k :: 0 <= k < 7 ==> part[k] == "device-"[k];
    assert part[0] == 'd';
  }

  lemma PortIsGood(part: Text)
    requires IsPort(part)
    ensures PlainPart(part)
  {
    PortNoSlash(part);
    assert forall k :: 5 <= k < |part| ==> part[k] == part[5..][k - 5];
    assert forall k :: 0 <= k < 5 ==> part[k] == "port-"[k];
    assert part[0] == 'p';
  }

  lemma PortPathIsGood(device: Text, port: Text, last: Text)
    requires IsDevice(device) && IsPort(port) && last in ["csr-hub.pem", "hub"]
    ensures GoodPath(Path4("cert1", device, port, last))
  {
    hide IsDevice, IsPort, GoodPath, Join, PlainPart;
    DeviceIsGood(device);
    PortIsGood(port);
    JoinIsPath("cert1", device, port, last);
    TopIsPlain();
    LastIsPlain(last);
    PlainPathIsGood(["cert1", device, port, last]);
  }

  lemma LastIsPlain(last: Text)
    requires last in ["csr-hub.pem", "hub", "request-notes.txt"]
    ensures PlainPart(last)
  {
  }

  lemma NotesPathIsGood()
    ensures GoodPath(Path2("cert1", "request-notes.txt"))
  {
    hide GoodPath, Join, PlainPart;
    JoinIsPath("cert1", "request-notes.txt", [], []);
    TopIsPlain();
    LastIsPlain("request-notes.txt");
    PlainPathIsGood(["cert1", "request-notes.txt"]);
  }

  /** The four folders of the hub's request. */
  function HubFolders(device: Text, port: Text): set<Text> {
    {"cert1", Path2("cert1", device), Path3("cert1", device, port), Path4("cert1", device, port, "hub")}
  }

  lemma FoldersOfPort(device: Text, port: Text)
    requires IsDevice(device) && IsPort(port)
    ensures FoldersFrom(Path4("cert1", device, port, "hub"), 0) == HubFolders(device, port)
    ensures FileFolders(Path4("cert1", device, port, "csr-hub.pem")) <= HubFolders(device, port)
    ensures FileFolders(Path2("cert1", "request-notes.txt")) == {"cert1"}
  {
    hide FoldersFrom, FileFolders, IsDevice, IsPort;
    DeviceIsGood(device);
    PortIsGood(port);
    var two, three := Path2("cert1", device), Path3("cert1", device, port);
    Path4Parent("cert1", device, port, "hub");
    Path4Parent("cert1", device, port, "csr-hub.pem");
    assert device[|device| - 1] in device && port[|port| - 1] in port;
    assert two[|two| - 1] == device[|device| - 1] && three[|three| - 1] == port[|port| - 1];
    TopFolder();
    FoldersWithPart("cert1", device);
    FoldersWithPart(two, port);
    FoldersWithPart(three, "hub");
    FoldersOfFile(three, "csr-hub.pem");
    FoldersOfFile("cert1", "request-notes.txt");
  }

  predicate IsHubRequest(t: Tree, device: Text, port: Text, csr: Text, notes: Text) {
    t.folders == HubFolders(device, port) &&
    t.files == map[Path4("cert1", device, port, "csr-hub.pem") := csr, Path2("cert1", "request-notes.txt") := notes]
  }

  /** What the request holds. */
  lemma HubRequestIs(device: Text, port: Text, csr: Text, notes: Text)
    requires IsDevice(device) && IsPort(port)
    ensures IsHubRequest(HubRequest(device, port, csr, notes), device, port, csr, notes)
    ensures WellFormed(HubRequest(device, port, csr, notes))
  {
    hide FoldersFrom, FileFolders, IsDevice, IsPort, WithFile, WithFolder, WellFormed, IsSafeZipPath, Path2, Path3, Path4,
      Canonical;
    var csrPath, hub, notesPath := Path4("cert1", device, port, "csr-hub.pem"), Path4("cert1", device, port, "hub"),
      Path2("cert1", "request-notes.txt");
    PortPathIsGood(device, port, "csr-hub.pem");
    PortPathIsGood(device, port, "hub");
    NotesPathIsGood();
    FoldersOfPort(device, port);
    EmptyWellFormed();
    FileKeepsWellFormed(EMPTY, csrPath, csr);
    FileAdds(EMPTY, csrPath, csr);
    var t1 := WithFile(EMPTY, csrPath, csr);
    FolderKeepsWellFormed(t1, hub);
    WithFolderAdds(t1, hub);
    var t2 := WithFolder(t1, hub);
    assert t2.folders == HubFolders(device, port);
    FileKeepsWellFormed(t2, notesPath, notes);
    FileAdds(t2, notesPath, notes);
  }

  /** One entry, for the hub's port, with its answer where the hub keeps its certificate. */
  predicate IsHubEntry(csrs: seq<CsrEntry>, device: Text, port: Text) {
    |csrs| == 1 && csrs[0].isHubPort && csrs[0].csrPath == Path4("cert1", device, port, "csr-hub.pem") &&
    csrs[0].oprPath == Path4("cert1", device, port, "opr-hub.pem")
  }

  predicate PathsDiffer(csrs: seq<CsrEntry>) {
    forall j, k :: 0 <= j < k < |csrs| ==> csrs[j].csrPath != csrs[k].csrPath
  }

  lemma PathsDifferAt(csrs: seq<CsrEntry>, j: nat, k: nat)
    requires PathsDiffer(csrs) && j < k < |csrs|
    ensures csrs[j].csrPath != csrs[k].csrPath
  {
  }

  lemma AtMostOne(csrs: seq<CsrEntry>, path: Text)
    requires PathsDiffer(csrs) && forall k :: 0 <= k < |csrs| ==> csrs[k].csrPath == path
    ensures |csrs| <= 1
  {
    hide PathsDiffer;
    if |csrs| > 1 {
      PathsDifferAt(csrs, 0, 1);
    }
  }

  /** The hub's request is a valid request, with one certificate signing request in it: that of its hub port. */
  lemma HubRequestIsValid(device: Text, port: Text, csr: Text, notes: Text)
    requires IsDevice(device) && IsPort(port) && |csr| <= MAX_PEM && |notes| <= MAX_NOTES
    ensures var t := HubRequest(device, port, csr, notes);
            WellFormed(t) && LegalTree(t, false) && IsHubEntry(Csrs(t), device, port)
  {
    hide FoldersFrom, FileFolders, IsDevice, IsPort, WithFile, WithFolder, WellFormed, GoodPath, HubRequest, Csrs, IsCsr,
      CsrOf, Path2, Path3, Path4, HasEntry;
    HubRequestIs(device, port, csr, notes);
    HubRequestIsLegal(device, port, csr, notes);
    var t, csrPath := HubRequest(device, port, csr, notes), Path4("cert1", device, port, "csr-hub.pem");
    HubCsr(t, device, port);
    OneEntryEach(t);
    NotesAreNoCsr();
    assert HasEntry(Csrs(t), csrPath);
    EntryOf(Csrs(t), csrPath);
    assert PathsDiffer(Csrs(t));
    AtMostOne(Csrs(t), csrPath);
    assert TrueEntry(t, Csrs(t)[0]);
  }

  lemma EntryOf(csrs: seq<CsrEntry>, path: Text)
    requires HasEntry(csrs, path)
    ensures |csrs| > 0
  {
  }

  lemma NotesAreNoCsr()
    ensures !IsCsr(Path2("cert1", "request-notes.txt"))
  {
    hide Split;
    SplitPath("cert1", "request-notes.txt", [], []);
  }

  /** The hub's own entry, in whatever tree its request is. */
  lemma HubCsr(t: Tree, device: Text, port: Text)
    requires IsDevice(device) && IsPort(port)
    ensures var path := Path4("cert1", device, port, "csr-hub.pem");
            IsCsr(path) && CsrOf(t, path).oprPath == Path4("cert1", device, port, "opr-hub.pem") &&
            CsrOf(t, path).isHubPort == (Path4("cert1", device, port, "hub") in t.folders)
  {
    hide Split, IsDevice, IsValidName, StartsWith, FileName, Path4;
    DeviceIsGood(device);
    PortIsGood(port);
    PortStarts(port);
    HubName();
    SplitPath("cert1", device, port, "csr-hub.pem");
    FileNameIff("csr-hub.pem", "csr-", "hub");
    PathsAgree(device, port, "hub");
    HubAgrees(device, port);
  }

  lemma PortStarts(port: Text)
    requires IsPort(port)
    ensures StartsWith(port, "port-")
  {
  }

  lemma HubName()
    ensures IsValidName("hub") && "csr-" + "hub" + ".pem" == "csr-hub.pem" && "opr-" + "hub" + ".pem" == "opr-hub.pem"
  {
  }

  lemma HubAgrees(device: Text, port: Text)
    ensures "cert1/" + device + "/" + port + "/hub" == Path4("cert1", device, port, "hub")
  {
    assert "cert1/" + device == "cert1" + "/" + device && "/hub" == "/" + "hub";
    Regroup("cert1" + "/" + device, "/" + port, "/" + "hub");
  }

  lemma HubRequestIsLegal(device: Text, port: Text, csr: Text, notes: Text)
    requires IsDevice(device) && IsPort(port) && |csr| <= MAX_PEM && |notes| <= MAX_NOTES
    ensures LegalTree(HubRequest(device, port, csr, notes), false)
  {
    hide FoldersFrom, FileFolders, IsDevice, IsPort, WithFile, WithFolder, WellFormed, HubRequest, Path2, Path3, Path4,
      StartsWith, IsFileName;
    HubRequestIs(device, port, csr, notes);
    var t := HubRequest(device, port, csr, notes);
    PortIsGood(port);
    PortStarts(port);
    CsrFileName();
    assert PortFileAt(Path4("cert1", device, port, "csr-hub.pem"), false, device, port, "csr-hub.pem");
    var deviceFolder, portFolder := Path2("cert1", device), Path3("cert1", device, port);
    assert DeviceFolderAt(deviceFolder, device) && PortFolderAt(portFolder, device, port);
    forall f, d | f in t.folders && DeviceFolderAt(f, d)
      ensures exists g, p :: g in t.folders && PortFolderAt(g, d, p)
    {
      OneDeviceFolder(device, port, f, d);
      assert PortFolderAt(portFolder, d, port);
    }
  }

  lemma CsrFileName()
    ensures IsFileName("csr-hub.pem", "csr-")
  {
    HubName();
  }

  lemma OneDeviceFolder(device: Text, port: Text, f: Text, d: Text)
    requires IsDevice(device) && IsPort(port) && f in HubFolders(device, port) && DeviceFolderAt(f, d)
    ensures d == device
  {
    hide IsDevice, IsPort, Path2, Path3, Path4, Split;
    DeviceFolderParts(f, d);
    DeviceIsGood(device);
    PortIsGood(port);
    SplitPath("cert1", device, port, "hub");
  }

  // ---- The response -------------------------------------------------------

  /** The part after the last '/'. */
  function BaseName(path: Text): Text {
    match LastSlash(path)
    case None => path
    case Some(at) => path[at + 1..]
  }

  predicate IsCandidate(path: Text, own: Text) {
    StartsWith(BaseName(path), "opr-") && path != own
  }

  predicate IsIssuer(path: Text) {
    StartsWith(path, "cert1/issuer/") && StartsWith(BaseName(path), "iss-")
  }

  function CandidatesAmong(t: Tree, paths: seq<Text>, own: Text): seq<Text>
    requires forall p :: p in paths ==> p in t.files
  {
    if paths == [] then []
    else (if IsCandidate(paths[0], own) then [t.files[paths[0]]] else []) + CandidatesAmong(t, paths[1..], own)
  }

  function IssuersAmong(t: Tree, paths: seq<Text>): seq<Text>
    requires forall p :: p in paths ==> p in t.files
  {
    if paths == [] then []
    else (if IsIssuer(paths[0]) then [t.files[paths[0]]] else []) + IssuersAmong(t, paths[1..])
  }

  /** The files ReadCariResponse tries, in its order: the hub's own place, then any other opr- file; and the issuers. */
  ghost function ResponseIn(t: Tree, own: Text): CertRun.Response {
    CertRun.Response((if own in t.files then [t.files[own]] else []) + CandidatesAmong(t, Sorted(t.files.Keys), own),
                     IssuersAmong(t, Sorted(t.files.Keys)))
  }

  lemma CandidatesStep(t: Tree, before: seq<Text>, path: Text, rest: seq<Text>, own: Text)
    requires path in t.files && forall p :: p in rest ==> p in t.files
    ensures before + CandidatesAmong(t, [path] + rest, own) ==
            before + (if IsCandidate(path, own) then [t.files[path]] else []) + CandidatesAmong(t, rest, own)
  {
    hide IsCandidate;
    assert ([path] + rest)[1..] == rest;
  }

  lemma IssuersStep(t: Tree, before: seq<Text>, path: Text, rest: seq<Text>)
    requires path in t.files && forall p :: p in rest ==> p in t.files
    ensures before + IssuersAmong(t, [path] + rest) ==
            before + (if IsIssuer(path) then [t.files[path]] else []) + IssuersAmong(t, rest)
  {
    hide IsIssuer;
    assert ([path] + rest)[1..] == rest;
  }

  lemma NothingAmong(t: Tree, own: Text)
    ensures CandidatesAmong(t, Sorted({}), own) == [] && IssuersAmong(t, Sorted({})) == []
  {
  }

  method ListCandidates(t: Tree, own: Text) returns (candidates: seq<Text>)
    ensures candidates == ResponseIn(t, own).candidates
  {
    hide LeastIn, IsCandidate, CandidatesAmong, IssuersAmong, Sorted;
    candidates := if own in t.files then [t.files[own]] else [];
    var paths := t.files.Keys;
    NothingAmong(t, own);
    while paths != {}
      invariant paths <= t.files.Keys
      invariant ResponseIn(t, own).candidates == candidates + CandidatesAmong(t, Sorted(paths), own)
      decreases |paths|
    {
      var path := PickLeast(paths);
      assert path in paths;
      CandidatesStep(t, candidates, path, Sorted(paths - {path}), own);
      candidates := candidates + (if IsCandidate(path, own) then [t.files[path]] else []);
      paths := paths - {path};
    }
  }

  method ListIssuers(t: Tree, own: Text) returns (issuers: seq<Text>)
    ensures issuers == ResponseIn(t, own).issuers
  {
    hide LeastIn, IsIssuer, IssuersAmong, CandidatesAmong, Sorted;
    issuers := [];
    var paths := t.files.Keys;
    NothingAmong(t, own);
    while paths != {}
      invariant paths <= t.files.Keys
      invariant ResponseIn(t, own).issuers == issuers + IssuersAmong(t, Sorted(paths))
      decreases |paths|
    {
      var path := PickLeast(paths);
      assert path in paths;
      IssuersStep(t, issuers, path, Sorted(paths - {path}));
      issuers := issuers + (if IsIssuer(path) then [t.files[path]] else []);
      paths := paths - {path};
    }
  }

  /** The file's own name, without its folders, starts so. */
  predicate NamedFile(path: Text, prefix: Text) {
    StartsWith(BaseName(path), prefix)
  }

  predicate FileAt(t: Tree, path: Text, contents: Text) {
    path in t.files && t.files[path] == contents
  }

  predicate IsAnswer(path: Text, own: Text) {
    path == own || NamedFile(path, "opr-")
  }

  predicate UnderIssuer(path: Text) {
    StartsWith(path, "cert1/issuer/") && NamedFile(path, "iss-")
  }

  lemma {:induction false} AmongIff(t: Tree, paths: seq<Text>, own: Text, contents: Text)
    requires forall p :: p in paths ==> p in t.files
    ensures contents in CandidatesAmong(t, paths, own) <==>
            exists p :: p in paths && p != own && IsAnswer(p, own) && FileAt(t, p, contents)
    ensures contents in IssuersAmong(t, paths) <==> exists p :: p in paths && UnderIssuer(p) && FileAt(t, p, contents)
    decreases |paths|
  {
    hide BaseName, StartsWith;
    if paths != [] {
      var first, rest := paths[0], paths[1..];
      assert paths == [first] + rest;
      AmongIff(t, rest, own, contents);
      assert IsCandidate(first, own) <==> first != own && IsAnswer(first, own);
      assert contents in CandidatesAmong(t, paths, own) <==>
             (IsCandidate(first, own) && t.files[first] == contents) || contents in CandidatesAmong(t, rest, own);
      assert contents in IssuersAmong(t, paths) <==>
             (IsIssuer(first) && t.files[first] == contents) || contents in IssuersAmong(t, rest);
      assert IsIssuer(first) <==> UnderIssuer(first);
      FileAtIs(t, first, contents);
    }
  }

  lemma FileAtIs(t: Tree, path: Text, contents: Text)
    requires path in t.files
    ensures FileAt(t, path, contents) <==> t.files[path] == contents
  {
  }

  /** Every opr- file is a candidate, wherever it is, the hub's own place first; every iss- file under cert1/issuer/ is an
      issuer; and nothing else is either. */
  lemma ResponseInIff(t: Tree, own: Text, contents: Text)
    ensures var r := ResponseIn(t, own);
            (own in t.files ==> r.candidates != [] && r.candidates[0] == t.files[own]) &&
            (contents in r.candidates <==> exists p :: IsAnswer(p, own) && FileAt(t, p, contents)) &&
            (contents in r.issuers <==> exists p :: UnderIssuer(p) && FileAt(t, p, contents))
  {
    hide IsAnswer, UnderIssuer, CandidatesAmong, IssuersAmong, Sorted;
    AmongIff(t, Sorted(t.files.Keys), own, contents);
    OwnIsAnswer(own);
  }

  lemma OwnIsAnswer(own: Text)
    ensures IsAnswer(own, own)
  {
  }

  // ---- The issuers are found, in slot order -------------------------------

  const SLOT1: Text := Path3("cert1", "issuer", "iss-1.pem")
  const SLOT2: Text := Path3("cert1", "issuer", "iss-2.pem")

  lemma SlotIsIssuer(file: Text)
    requires file in ["iss-1.pem", "iss-2.pem"]
    ensures IsIssuer(Path3("cert1", "issuer", file))
    ensures Path3("cert1", "issuer", file) == "cert1/issuer/iss-" + file[4..]
  {
    hide LastSlash, StartsWith, BaseName;
    var path, folder := Path3("cert1", "issuer", file), Path2("cert1", "issuer");
    assert folder == "cert1/issuer";
    assert path == folder + "/" + file;
    BaseOf(folder, file);
    var end: Text := file[4..];
    IssuerFileName(file);
    PrefixStarts("cert1/issuer/", "iss-" + end);
    PrefixStarts("iss-", end);
    assert folder + "/" == "cert1/issuer/";
    assert path == "cert1/issuer/" + ("iss-" + end);
    Regroup("cert1/issuer/", "iss-", end);
  }

  lemma IssuerFileName(file: Text)
    requires file in ["iss-1.pem", "iss-2.pem"]
    ensures file == "iss-" + file[4..] && '/' !in file
  {
  }

  lemma PrefixStarts(prefix: Text, rest: Text)
    ensures StartsWith(prefix + rest, prefix)
  {
  }

  lemma Slots()
    ensures IsIssuer(SLOT1) && IsIssuer(SLOT2) && Less(SLOT1, SLOT2) && SLOT1 != SLOT2
  {
    hide Path3, IsIssuer;
    SlotIsIssuer("iss-1.pem");
    SlotIsIssuer("iss-2.pem");
    var one: Text, two: Text := "iss-1.pem"[4..], "iss-2.pem"[4..];
    assert one[0] < two[0];
    LessAfter("cert1/issuer/iss-", one, two);
    Irreflexive(SLOT1);
  }

  lemma {:induction false} LessAfter(before: Text, a: Text, b: Text)
    requires Less(a, b)
    ensures Less(before + a, before + b)
    decreases |before|
  {
    hide Less;
    if before == [] {
      assert before + a == a && before + b == b;
    } else {
      LessAfter(before[1..], a, b);
      assert (before + a)[1..] == before[1..] + a && (before + b)[1..] == before[1..] + b;
      LessStep(before + a, before + b);
    }
  }

  lemma LessStep(a: Text, b: Text)
    requires a != [] && b != [] && a[0] == b[0] && Less(a[1..], b[1..])
    ensures Less(a, b)
  {
  }

  lemma BaseOf(parent: Text, file: Text)
    requires '/' !in file
    ensures BaseName(parent + "/" + file) == file
  {
    var path := parent + "/" + file;
    assert path[|parent|] == '/';
    assert forall k :: |parent| < k < |path| ==> path[k] == file[k - |parent| - 1];
    assert LastSlash(path) == Some(|parent|);
  }

  /** In a legal tree only the two slots hold issuers. */
  lemma OnlySlots(path: Text, size: nat)
    requires LegalFile(path, size, true) && IsIssuer(path)
    ensures path == SLOT1 || path == SLOT2
  {
    hide BaseName, PortFileAt, Path2, Path3;
    NotUnderIssuer(path);
    if size <= MAX_PEM {
      if device, port, file :| PortFileAt(path, true, device, port, file) {
        UnderDevice(path, device, port, file);
      }
    }
  }

  lemma UnderDevice(path: Text, device: Text, port: Text, file: Text)
    requires PortFileAt(path, true, device, port, file)
    ensures !StartsWith(path, "cert1/issuer/")
  {
    hide IsDevice, IsFileName;
    DeviceStarts(device);
    assert path[6] == device[0] && "cert1/issuer/"[6] == 'i';
    assert path[0 + 6] != "cert1/issuer/"[6];
  }

  lemma NotUnderIssuer(path: Text)
    requires StartsWith(path, "cert1/issuer/")
    ensures path != Path2("cert1", "vendor-data") && path != Path2("cert1", "request-notes.txt")
    ensures path != Path2("cert1", "response-notes.txt") && path != Path2("cert1", "errors.txt")
  {
    assert path[6] == "cert1/issuer/"[6];
  }

  lemma DeviceStarts(part: Text)
    requires IsDevice(part)
    ensures |part| > 0 && part[0] == 'd'
  {
    hide Value;
    assert part[0] == "device-"[0];
  }

  /** Which issuers there are, in path order. */
  lemma {:induction false} IssuersAre(t: Tree, paths: seq<Text>)
    requires Ascending(paths) && forall p :: p in paths ==> p in t.files
    requires forall p :: p in paths && IsIssuer(p) ==> p == SLOT1 || p == SLOT2
    ensures IssuersAmong(t, paths) ==
            (if SLOT1 in paths then [t.files[SLOT1]] else []) + (if SLOT2 in paths then [t.files[SLOT2]] else [])
    decreases |paths|
  {
    hide IsIssuer, Less, IssuersAmong;
    if paths == [] {
      NoIssuersAmong(t);
    } else {
      var first, rest := paths[0], paths[1..];
      assert paths == [first] + rest;
      IssuersAre(t, rest);
      IssuersFirst(t, paths);
      Slots();
      assert first !in rest by {
        FirstIsOnce(paths);
      }
      if first == SLOT2 {
        assert SLOT1 !in rest by {
          NotBefore(paths, SLOT1);
        }
      }
    }
  }

  lemma IssuersFirst(t: Tree, paths: seq<Text>)
    requires paths != [] && forall p :: p in paths ==> p in t.files
    ensures IssuersAmong(t, paths) ==
            if IsIssuer(paths[0]) then [t.files[paths[0]]] + IssuersAmong(t, paths[1..]) else IssuersAmong(t, paths[1..])
  {
    hide IsIssuer;
  }

  lemma NoIssuersAmong(t: Tree)
    ensures IssuersAmong(t, []) == []
  {
  }

  lemma FirstIsOnce(paths: seq<Text>)
    requires Ascending(paths) && paths != []
    ensures paths[0] !in paths[1..]
  {
    Irreflexive(paths[0]);
    hide Less;
  }

  lemma NotBefore(paths: seq<Text>, p: Text)
    requires Ascending(paths) && paths != [] && Less(p, paths[0])
    ensures p !in paths
  {
    hide Less;
    Irreflexive(p);
    Irreflexive(paths[0]);
    forall k | 0 <= k < |paths|
      ensures paths[k] != p
    {
      if k > 0 && paths[k] == p {
        Transitive(p, paths[0], p);
      }
    }
  }

  // ---- The hub finds its certificate --------------------------------------

  /** The slots of a response hold the issuers it was given. */
  lemma SlotsHold(t: Tree, answers: seq<Text>, issuer1: Option<Text>, issuer2: Option<Text>)
    requires WellFormed(t) && LegalTree(t, false)
    requires |answers| == |Csrs(t)| && forall k :: 0 <= k < |answers| ==> |answers[k]| <= MAX_PEM
    ensures var r := Response(t, Csrs(t), answers, issuer1, issuer2);
            (SLOT1 in r.files <==> issuer1.Some?) && (SLOT2 in r.files <==> issuer2.Some?) &&
            (issuer1.Some? ==> r.files[SLOT1] == issuer1.value) && (issuer2.Some? ==> r.files[SLOT2] == issuer2.value)
  {
    hide LegalTree, WellFormed, Csrs, Answered, WithIssuer, Path3, IsIssuer, HasAnswers, NotIssuerPaths, Less;
    ResponseIsLegal(t, answers, issuer1, issuer2);
    Slots();
    NoIssuersInRequest(t, "iss-1.pem");
    NoIssuersInRequest(t, "iss-2.pem");
    var r0 := Answered(t, Csrs(t), answers);
    NotAnswered(t, Csrs(t), answers, r0, "iss-1.pem");
    NotAnswered(t, Csrs(t), answers, r0, "iss-2.pem");
    FileOrNot(r0, "iss-1.pem", issuer1);
    FileOrNot(WithIssuer(r0, "iss-1.pem", issuer1), "iss-2.pem", issuer2);
  }

  lemma NotAnswered(t: Tree, csrs: seq<CsrEntry>, answers: seq<Text>, r: Tree, file: Text)
    requires |csrs| == |answers| && HasAnswers(t, csrs, answers, r) && NotIssuerPaths(t, csrs, file)
    ensures Path3("cert1", "issuer", file) !in r.files
  {
    hide Path3;
  }

  lemma FileOrNot(t: Tree, file: Text, issuer: Option<Text>)
    ensures WithIssuer(t, file, issuer).files ==
            if issuer.None? then t.files else t.files[Path3("cert1", "issuer", file) := issuer.value]
  {
    hide WithFile, Path3;
    if issuer.Some? {
      FilesOfWithFile(t, Path3("cert1", "issuer", file), issuer.value);
    }
  }

  predicate Finds(found: CertRun.Response, answer: Text, issuer1: Option<Text>, issuer2: Option<Text>) {
    |found.candidates| > 0 && found.candidates[0] == answer &&
    found.issuers == (if issuer1.Some? then [issuer1.value] else []) + (if issuer2.Some? then [issuer2.value] else [])
  }

  /** In the response, the answer to each request is the one that its owner, who looks where ListCsrs says it goes,
      tries first; and the issuers are those the response was given, slot 1 first. */
  lemma AnswerIsFoundFirst(t: Tree, answers: seq<Text>, issuer1: Option<Text>, issuer2: Option<Text>, k: nat)
    requires WellFormed(t) && LegalTree(t, false)
    requires |answers| == |Csrs(t)| && forall k :: 0 <= k < |answers| ==> |answers[k]| <= MAX_PEM
    requires k < |answers|
    ensures Finds(ResponseIn(Response(t, Csrs(t), answers, issuer1, issuer2), Csrs(t)[k].oprPath), answers[k], issuer1, issuer2)
  {
    hide LegalTree, WellFormed, Csrs, Response, IsIssuer, Less, CandidatesAmong, IssuersAmong, HasAnswers, Answered;
    ResponseIsLegal(t, answers, issuer1, issuer2);
    ResponseKeepsAndAnswers(t, answers, issuer1, issuer2);
    var r := Response(t, Csrs(t), answers, issuer1, issuer2);
    forall p | p in Sorted(r.files.Keys) && IsIssuer(p)
      ensures p == SLOT1 || p == SLOT2
    {
      FilesAreLegal(r, p);
      OnlySlots(p, |r.files[p]|);
    }
    IssuersAre(r, Sorted(r.files.Keys));
    SlotsHold(t, answers, issuer1, issuer2);
  }

  lemma FilesAreLegal(t: Tree, p: Text)
    requires LegalTree(t, true) && p in t.files
    ensures LegalFile(p, |t.files[p]|, true)
  {
  }

  /** The certificates in the slots that are used. */
  function Authorities(tools: CertRun.Tools, issuer1: Text, issuer2: Option<Text>): seq<Option<CertFiles.X509>> {
    [tools.anyCertificate(issuer1)] + if issuer2.Some? then [tools.anyCertificate(issuer2.value)] else []
  }

  /** So ReadCariResponse takes that answer, when it is a good certificate for the key of the request and the issuer in
      slot 1 signed it. */
  lemma AnswerIsImported(c: CertFiles.Crypto, tools: CertRun.Tools, t: Tree, answers: seq<Text>, issuer1: Text,
                         issuer2: Option<Text>, k: nat, x: CertFiles.X509, authorities: seq<CertFiles.X509>)
    requires WellFormed(t) && LegalTree(t, false)
    requires |answers| == |Csrs(t)| && forall k :: 0 <= k < |answers| ==> |answers[k]| <= MAX_PEM
    requires k < |answers| && tools.anyCertificate(answers[k]) == Some(x) && !tools.expired(x)
    requires |authorities| == |Authorities(tools, issuer1, issuer2)|
    requires forall j :: 0 <= j < |authorities| ==> Authorities(tools, issuer1, issuer2)[j] == Some(authorities[j])
    requires tools.issued(authorities[0], x)
    ensures CertRun.ReadResponse(c, tools, ResponseIn(Response(t, Csrs(t), answers, Some(issuer1), issuer2), Csrs(t)[k].oprPath),
                                 c.publicKey(x)) == Some((x, authorities))
  {
    hide WellFormed, LegalTree, Csrs, Response, ResponseIn;
    AnswerIsFoundFirst(t, answers, Some(issuer1), issuer2, k);
    var found := ResponseIn(Response(t, Csrs(t), answers, Some(issuer1), issuer2), Csrs(t)[k].oprPath);
    ParseNone(tools);
    if issuer2.None? {
      ParseStep(tools, issuer1, [], authorities[0], []);
      assert found.issuers == [issuer1] + [] && authorities == [authorities[0]] + [];
    } else {
      ParseStep(tools, issuer2.value, [], authorities[1], []);
      ParseStep(tools, issuer1, [issuer2.value] + [], authorities[0], [authorities[1]] + []);
      assert found.issuers == [issuer1] + ([issuer2.value] + []);
      assert authorities == [authorities[0]] + ([authorities[1]] + []);
    }
  }

  lemma ParseStep(tools: CertRun.Tools, first: Text, rest: seq<Text>, one: CertFiles.X509, others: seq<CertFiles.X509>)
    requires tools.anyCertificate(first) == Some(one) && CertRun.ParseIssuers(tools, rest) == Some(others)
    ensures CertRun.ParseIssuers(tools, [first] + rest) == Some([one] + others)
  {
    assert ([first] + rest)[1..] == rest;
  }

  lemma ParseNone(tools: CertRun.Tools)
    ensures CertRun.ParseIssuers(tools, []) == Some([])
  {
  }

  /** A zip file written from the response and read again is the same response. */
  lemma ResponseTravels(codec: Codec, stamp: Stamp, t: Tree, answers: seq<Text>, issuer1: Option<Text>, issuer2: Option<Text>)
    requires Lossless(codec) && WellFormed(t) && LegalTree(t, false)
    requires |answers| == |Csrs(t)| && forall k :: 0 <= k < |answers| ==> |answers[k]| <= MAX_PEM
    requires WithinLimits(codec, stamp, Response(t, Csrs(t), answers, issuer1, issuer2))
    ensures var r := Response(t, Csrs(t), answers, issuer1, issuer2);
            Read(codec, ZipOf(codec, stamp, r)) == Ok(r) && LegalTree(r, true)
  {
    hide Csrs, Response, WellFormed, Lossless, WithinLimits, ZipOf, Read, HasAnswers, Answered, LegalFolder, LegalFile,
      DeviceFolderAt, PortFolderAt;
    ResponseIsLegal(t, answers, issuer1, issuer2);
    ReadGivesBackTree(codec, stamp, Response(t, Csrs(t), answers, issuer1, issuer2));
  }
}
