/** The rules for the tree inside a CARI file (Annex AA.2.1 of ANSI/ASHRAE 135-2024; cari.cpp). */
module CariRules {
  import opened Octets
  import opened CariPath
  import opened CariTree
  import opened TextOrder
  import opened ZipWrite
  import opened Decimal

  const MAX_VENDOR_DATA := 1024 * 1024
  const MAX_NOTES := 10 * 1024
  const MAX_PEM := 64 * 1024
  const MAX_INSTANCE := 4194302

  // ---- Names --------------------------------------------------------------

  /** "device-12" -> 12. */
  function DeviceInstance(folder: Text): (r: Option<nat>)
    ensures r.Some? ==> r.value <= MAX_INSTANCE
  {
    if !StartsWith(folder, "device-") || |folder| == 7 || |folder| > 14 then None
    else
      var digits := folder[7..];
      if !IsDigits(digits) || Value(digits) > MAX_INSTANCE then None else Some(Value(digits))
  }

  predicate IsValidName(text: Text) {
    text != [] && |text| <= 128 &&
    forall k :: 0 <= k < |text| ==> text[k] >= ' ' && text[k] as int != 0x7F && text[k] !in "<>:\"/\\|?*"
  }

  /** The name in a file name of the form prefix, name and ".pem". */
  function FileName(file: Text, prefix: Text): Option<Text>
    requires '.' !in prefix
  {
    if !StartsWith(file, prefix) || !EndsWith(file, ".pem") then None
    else
      PrefixAndEnding(file, prefix);
      var name := file[|prefix|..|file| - 4];
      if IsValidName(name) then Some(name) else None
  }

  lemma PrefixAndEnding(file: Text, prefix: Text)
    requires StartsWith(file, prefix) && EndsWith(file, ".pem") && '.' !in prefix
    ensures |file| >= |prefix| + 4
  {
    assert file[|file| - 4] == ".pem"[0];
    assert forall k :: 0 <= k < |prefix| ==> file[k] == prefix[k] && prefix[k] in prefix;
  }

  predicate IsDevice(part: Text) {
    DeviceInstance(part).Some?
  }

  predicate IsPort(part: Text) {
    StartsWith(part, "port-") && IsValidName(part[5..])
  }

  // ---- Validate -----------------------------------------------------------

  datatype Fault =
    | OutsideCert1 | IssuerInRequest | BadDeviceFolder | BadPortFolder | UnexpectedFolder
    | VendorDataTooLarge | NotesTooLarge | NotCariFile | NotIssuerFile | BadPortFile | PemTooLarge | NoPlace
    | NoDevice | DeviceWithoutPort

  datatype Problem = Problem(path: Text, fault: Fault)

  function Report(path: Text, fault: Option<Fault>): seq<Problem> {
    if fault.Some? then [Problem(path, fault.value)] else []
  }

  function FolderFault(folder: Text, response: bool): Option<Fault>
    requires folder != []
  {
    SplitFirst(folder);
    var p := Split(folder);
    if p[0] != "cert1" then Some(OutsideCert1)
    else if |p| == 1 then None
    else if |p| == 2 && p[1] == "issuer" then if response then None else Some(IssuerInRequest)
    else if !IsDevice(p[1]) then Some(BadDeviceFolder)
    else if |p| == 2 then None
    else if |p| == 3 && p[2] == "router" then None
    else if !IsPort(p[2]) then Some(BadPortFolder)
    else if |p| == 3 then None
    else if |p| == 4 && p[3] == "hub" then None
    else Some(UnexpectedFolder)
  }

  function FileFault(path: Text, size: nat, response: bool): Option<Fault>
    requires path != []
  {
    SplitFirst(path);
    var p := Split(path);
    if p[0] != "cert1" || |p| < 2 then Some(OutsideCert1)
    else if |p| == 2 then
      if p[1] == "vendor-data" then if size > MAX_VENDOR_DATA then Some(VendorDataTooLarge) else None
      else if p[1] == "request-notes.txt" then if size > MAX_NOTES then Some(NotesTooLarge) else None
      else if response && (p[1] == "response-notes.txt" || p[1] == "errors.txt") then
        if size > MAX_NOTES && p[1] != "errors.txt" then Some(NotesTooLarge) else None
      else Some(NotCariFile)
    else if |p| == 3 && p[1] == "issuer" then
      if !response then Some(IssuerInRequest)
      else if p[2] != "iss-1.pem" && p[2] != "iss-2.pem" then Some(NotIssuerFile)
      else None
    else if |p| == 4 && IsDevice(p[1]) && StartsWith(p[2], "port-") then
      if FileName(p[3], "csr-").None? && FileName(p[3], "key-").None? && !(response && FileName(p[3], "opr-").Some?)
        then Some(BadPortFile)
      else if size > MAX_PEM then Some(PemTooLarge)
      else None
    else Some(NoPlace)
  }

  predicate IsDeviceFolder(folder: Text) {
    var p := Split(folder);
    |p| == 2 && p[0] == "cert1" && IsDevice(p[1])
  }

  predicate HasDevice(folders: set<Text>) {
    exists f :: f in folders && IsDeviceFolder(f)
  }

  predicate IsPortFolder(folder: Text) {
    var p := Split(folder);
    |p| == 3 && p[0] == "cert1" && IsDevice(p[1]) && p[2] != "router" && IsPort(p[2])
  }

  function DevicesWithPort(folders: set<Text>): set<Text> {
    set f | f in folders && IsPortFolder(f) :: Split(f)[1]
  }

  predicate LacksPort(folder: Text, devicesWithPort: set<Text>) {
    var p := Split(folder);
    |p| == 2 && IsDevice(p[1]) && p[1] !in devicesWithPort
  }

  function FolderProblems(folders: seq<Text>, response: bool): seq<Problem>
    requires [] !in folders
  {
    if folders == [] then []
    else
      Report(folders[0], FolderFault(folders[0], response)) + FolderProblems(folders[1..], response)
  }

  function FileProblems(paths: seq<Text>, files: map<Text, Text>, response: bool): seq<Problem>
    requires [] !in paths && forall p :: p in paths ==> p in files
  {
    if paths == [] then []
    else
      Report(paths[0], FileFault(paths[0], |files[paths[0]]|, response)) + FileProblems(paths[1..], files, response)
  }

  function PortProblems(folders: seq<Text>, devicesWithPort: set<Text>): seq<Problem> {
    if folders == [] then []
    else
      (if LacksPort(folders[0], devicesWithPort) then [Problem(folders[0], DeviceWithoutPort)] else []) +
      PortProblems(folders[1..], devicesWithPort)
  }

  function DeviceProblem(folders: set<Text>): seq<Problem> {
    if HasDevice(folders) then [] else [Problem("cert1/", NoDevice)]
  }

  /** Every problem, in the order the four loops find them. */
  ghost function Problems(t: Tree, response: bool): seq<Problem>
    requires [] !in t.folders && [] !in t.files
  {
    FolderProblems(Sorted(t.folders), response) + FileProblems(Sorted(t.files.Keys), t.files, response) +
    DeviceProblem(t.folders) + PortProblems(Sorted(t.folders), DevicesWithPort(t.folders))
  }

  method CheckFolders(all: set<Text>, response: bool)
    returns (problems: seq<Problem>, sawDevice: bool, devicesWithPort: set<Text>)
    requires [] !in all
    ensures problems == FolderProblems(Sorted(all), response)
    ensures sawDevice <==> HasDevice(all)
    ensures devicesWithPort == DevicesWithPort(all)
  {
    hide LeastIn, IsDeviceFolder, IsPortFolder, FolderFault, Split, FolderProblems, DevicesWithPort, HasDevice, Sorted, Report;
    NoFolderNoProblem(response);
    problems, sawDevice, devicesWithPort := [], false, {};
    var folders := all;
    ghost var done: set<Text> := {};
    while folders != {}
      invariant folders + done == all
      invariant FolderProblems(Sorted(all), response) == problems + FolderProblems(Sorted(folders), response)
      invariant sawDevice <==> HasDevice(done)
      invariant devicesWithPort == DevicesWithPort(done)
      decreases |folders|
    {
      var folder := PickLeast(folders);
      FolderProblemsStep(problems, folders, folder, response);
      FolderTurn(done, folder, response);
      var p := Split(folder);
      var fault := FolderFault(folder, response);
      problems := problems + Report(folder, fault);
      sawDevice := sawDevice || (fault.None? && |p| == 2 && p[1] != "issuer");
      devicesWithPort := devicesWithPort + (if fault.None? && |p| == 3 && p[2] != "router" then {p[1]} else {});
      folders, done := folders - {folder}, done + {folder};
    }
  }

  lemma SawDeviceStep(folders: set<Text>, folder: Text)
    ensures HasDevice(folders + {folder}) <==> HasDevice(folders) || IsDeviceFolder(folder)
  {
    hide IsDeviceFolder;
  }

  lemma DevicesWithPortStep(folders: set<Text>, folder: Text)
    ensures DevicesWithPort(folders + {folder}) ==
            DevicesWithPort(folders) + if IsPortFolder(folder) then {Split(folder)[1]} else {}
  {
    hide IsPort, IsDevice, Split;
  }

  /** Which branch of the first loop a folder without a fault takes. */
  lemma FolderKinds(folder: Text, response: bool)
    requires folder != []
    ensures var p := Split(folder);
            IsDeviceFolder(folder) <==> FolderFault(folder, response).None? && |p| == 2 && p[1] != "issuer"
    ensures var p := Split(folder);
            IsPortFolder(folder) <==> FolderFault(folder, response).None? && |p| == 3 && p[2] != "router"
  {
    hide Split, IsPort;
  }

  /** What one turn of the first loop notes. */
  lemma FolderTurn(done: set<Text>, folder: Text, response: bool)
    requires folder != []
    ensures var p, fault := Split(folder), FolderFault(folder, response);
            HasDevice(done + {folder}) == (HasDevice(done) || (fault.None? && |p| == 2 && p[1] != "issuer")) &&
            DevicesWithPort(done + {folder}) ==
            DevicesWithPort(done) + (if fault.None? && |p| == 3 && p[2] != "router" then {p[1]} else {})
  {
    hide Split, HasDevice, DevicesWithPort, FolderFault, IsPortFolder, IsDeviceFolder;
    FolderKinds(folder, response);
    DevicesWithPortStep(done, folder);
    SawDeviceStep(done, folder);
  }

  lemma FolderProblemsStep(before: seq<Problem>, folders: set<Text>, folder: Text, response: bool)
    requires LeastIn(folder, folders) && [] !in folders
    ensures before + FolderProblems(Sorted(folders), response) ==
            before + Report(folder, FolderFault(folder, response)) + FolderProblems(Sorted(folders - {folder}), response)
  {
    hide FolderFault, Report, LeastIn, Sorted;
    assert folder in folders by {
      LeastIsIn(folder, folders);
    }
    SortedStep(folders, folder);
    var rest := Sorted(folders - {folder});
    assert ([folder] + rest)[1..] == rest;
  }

  lemma LeastIsIn(m: Text, s: set<Text>)
    requires LeastIn(m, s)
    ensures m in s
  {
  }

  method CheckFiles(files: map<Text, Text>, response: bool) returns (problems: seq<Problem>)
    requires [] !in files
    ensures problems == FileProblems(Sorted(files.Keys), files, response)
  {
    hide LeastIn, FileFault, FileProblems, Sorted, Report;
    NoFileNoProblem(files, response);
    problems := [];
    var paths := files.Keys;
    while paths != {}
      invariant paths <= files.Keys
      invariant FileProblems(Sorted(files.Keys), files, response) == problems + FileProblems(Sorted(paths), files, response)
      decreases |paths|
    {
      var path := PickLeast(paths);
      FileProblemsStep(problems, paths, path, files, response);
      problems := problems + Report(path, FileFault(path, |files[path]|, response));
      paths := paths - {path};
    }
  }

  lemma FileProblemsStep(before: seq<Problem>, paths: set<Text>, path: Text, files: map<Text, Text>, response: bool)
    requires LeastIn(path, paths) && paths <= files.Keys && [] !in files
    ensures path in files
    ensures before + FileProblems(Sorted(paths), files, response) ==
            before + Report(path, FileFault(path, |files[path]|, response)) +
            FileProblems(Sorted(paths - {path}), files, response)
  {
    hide FileFault, Report, LeastIn, Sorted;
    LeastIsIn(path, paths);
    SortedStep(paths, path);
    var rest := Sorted(paths - {path});
    assert ([path] + rest)[1..] == rest;
  }

  method CheckPorts(all: set<Text>, devicesWithPort: set<Text>) returns (problems: seq<Problem>)
    ensures problems == PortProblems(Sorted(all), devicesWithPort)
  {
    hide LeastIn, LacksPort, PortProblems, Sorted;
    NoPortProblem(devicesWithPort);
    problems := [];
    var folders := all;
    while folders != {}
      invariant PortProblems(Sorted(all), devicesWithPort) == problems + PortProblems(Sorted(folders), devicesWithPort)
      decreases |folders|
    {
      var folder := PickLeast(folders);
      PortProblemsStep(problems, folder, Sorted(folders - {folder}), devicesWithPort);
      if LacksPort(folder, devicesWithPort) {
        problems := problems + [Problem(folder, DeviceWithoutPort)];
      }
      folders := folders - {folder};
    }
  }

  lemma PortProblemsStep(before: seq<Problem>, folder: Text, rest: seq<Text>, devicesWithPort: set<Text>)
    ensures before + PortProblems([folder] + rest, devicesWithPort) ==
            before + (if LacksPort(folder, devicesWithPort) then [Problem(folder, DeviceWithoutPort)] else []) +
            PortProblems(rest, devicesWithPort)
  {
    hide LacksPort;
    assert ([folder] + rest)[1..] == rest;
  }

  lemma NoFolderNoProblem(response: bool)
    ensures FolderProblems(Sorted({}), response) == [] && DevicesWithPort({}) == {} && !HasDevice({})
  {
  }

  lemma NoFileNoProblem(files: map<Text, Text>, response: bool)
    ensures FileProblems(Sorted({}), files, response) == []
  {
  }

  lemma NoPortProblem(devicesWithPort: set<Text>)
    ensures PortProblems(Sorted({}), devicesWithPort) == []
  {
  }

  method Validate(t: Tree, response: bool) returns (ok: bool, problems: seq<Problem>)
    requires [] !in t.folders && [] !in t.files
    ensures problems == Problems(t, response) && (ok <==> problems == [])
  {
    hide IsDeviceFolder, DevicesWithPort, FolderProblems, FileProblems, PortProblems, Sorted;
    var inFolders, sawDevice, devicesWithPort := CheckFolders(t.folders, response);
    var inFiles := CheckFiles(t.files, response);
    problems := inFolders + inFiles;
    if !sawDevice {
      problems := problems + [Problem("cert1/", NoDevice)];
    }
    var missing := CheckPorts(t.folders, devicesWithPort);
    problems := problems + missing;
    ok := problems == [];
  }
}
