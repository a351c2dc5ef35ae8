/** The certificate files on disk, the staged writes over them, and what the operations of cert_store.cpp do to
    both, file operation by file operation. OpenSSL is a record of functions; each file operation can succeed, fail
    or be where the process stops. */
module CertFiles {
  import opened Octets
  import Pem
  import opened Listing

  type Path = Text
  type Disk = map<Path, Text>
  type Key = nat    // a key pair, named by its public key
  type X509 = nat   // a parsed certificate

  datatype Role = TlsServer | TlsClient

  /** The parts of OpenSSL the store relies on. */
  datatype Crypto = Crypto(
    certificate: Text -> Option<X509>,                    // PEM_read_bio_X509 on one block
    publicKey: X509 -> Key,
    isCa: X509 -> bool,
    chains: (X509, seq<X509>, seq<X509>, Role) -> bool,   // leaf, intermediates, issuers
    privateKey: Text -> Option<Key>,                      // PEM_read_bio_PrivateKey
    requestKey: Text -> Option<Key>)                      // the key in a certificate signing request

  // ---- Layout -------------------------------------------------------------

  function Tmp(path: Path): Path {
    path + ".tmp"
  }

  datatype Layout = Layout(paths: map<nat, Path>, readFallbackInstances: map<nat, nat>, operationalInstance: nat,
                           issuerInstances: seq<nat>, privateKeyPath: Path, pendingPrivateKeyPath: Path,
                           csrInstance: nat) {
    /** Every file the store manages. */
    function Managed(): set<Path> {
      paths.Values + {privateKeyPath, pendingPrivateKeyPath}
    }

    /** Distinct, non-empty paths, none of them the temporary file of another. */
    ghost predicate DistinctPaths() {
      (forall i, j :: i in paths && j in paths && paths[i] == paths[j] ==> i == j) &&
      [] !in paths.Values && privateKeyPath != [] && privateKeyPath != pendingPrivateKeyPath &&
      privateKeyPath !in paths.Values && pendingPrivateKeyPath !in paths.Values &&
      forall p, q :: p in Managed() && q in Managed() ==> Tmp(p) != q
    }

    /** Following the fallbacks ends: some rank goes down along each. */
    ghost predicate Acyclic() {
      exists rank: map<nat, nat> :: IsRank(rank)
    }

    ghost predicate IsRank(rank: map<nat, nat>) {
      forall i :: i in readFallbackInstances ==>
        i in rank && (readFallbackInstances[i] in rank ==> rank[readFallbackInstances[i]] < rank[i])
    }

    ghost function Rank(i: nat): nat
      requires Acyclic()
    {
      var rank: map<nat, nat> :| IsRank(rank);
      if i in rank then rank[i] + 1 else 0
    }

    lemma RankFalls(i: nat)
      requires Acyclic() && i in readFallbackInstances
      ensures Rank(readFallbackInstances[i]) < Rank(i)
    {
    }

    ghost predicate WellFormed() {
      DistinctPaths() && Acyclic()
    }
  }

  // ---- File operations ----------------------------------------------------

  datatype Fate = Succeeds | Fails | Crashes

  /** What happens to each file operation of one call: nothing writes, renames or removes a path twice in a call.
      `left` is what a write that does not succeed leaves of the temporary file: none, or anything. */
  datatype Env = Env(write: Path -> Fate, rename: Path -> Fate, promote: Fate, remove: Path -> Fate,
                     left: Path -> Option<Text>)

  datatype Outcome = Done(ok: bool) | Crashed

  /** The disk with these contents in the temporary file, or without one. */
  function WithTemp(disk: Disk, path: Path, bytes: Option<Text>): Disk {
    match bytes
    case None => disk - {Tmp(path)}
    case Some(b) => disk[Tmp(path) := b]
  }

  /** WriteTempFile: it removes an old temporary file, writes, and removes what it wrote if that failed; the process can
      stop anywhere in that. */
  function WriteTemp(disk: Disk, path: Path, bytes: Text, env: Env): (Disk, Outcome) {
    match env.write(path)
    case Succeeds => (disk[Tmp(path) := bytes], Done(true))
    case Fails => (WithTemp(disk, path, env.left(path)), Done(false))
    case Crashes => (WithTemp(disk, path, env.left(path)), Crashed)
  }

  function Move(disk: Disk, from: Path, to: Path): Disk
    requires from in disk
  {
    (disk - {from})[to := disk[from]]
  }

  /** ReplaceWithTemp and PromotePendingKey: an atomic rename. */
  function Rename(disk: Disk, from: Path, to: Path, fate: Fate): (Disk, Outcome) {
    if fate == Crashes then (disk, Crashed)
    else if fate == Fails || from !in disk then (disk, Done(false))
    else (Move(disk, from, to), Done(true))
  }

  /** The temporary files removed again, after something else failed: one that cannot be is left. */
  function RemoveTemps(disk: Disk, paths: seq<Path>, env: Env): (r: (Disk, Outcome))
    ensures r.1 != Done(true)
    decreases |paths|
  {
    if paths == [] then (disk, Done(false))
    else
      match env.remove(paths[0])
      case Succeeds => RemoveTemps(disk - {Tmp(paths[0])}, paths[1..], env)
      case Fails => RemoveTemps(disk, paths[1..], env)
      case Crashes => (disk, Crashed)
  }

  // ---- The store ----------------------------------------------------------

  const MAX_FILE_BYTES := 64 * 1024

  datatype Store = Store(disk: Disk, staged: map<nat, Text>, promotes: bool)

  function OwnPath(l: Layout, i: nat): Path {
    if i in l.paths then l.paths[i] else []
  }

  /** The File object that `i` serves instead while it has neither a staged copy nor a file, or 0. */
  function FallbackInstance(l: Layout, s: Store, i: nat): nat {
    if i in s.staged then 0
    else if OwnPath(l, i) == [] || OwnPath(l, i) in s.disk then 0
    else if i in l.readFallbackInstances then l.readFallbackInstances[i]
    else 0
  }

  function Read(l: Layout, s: Store, i: nat): Option<Text>
    requires l.Acyclic()
    decreases l.Rank(i)
  {
    if i in s.staged then Some(s.staged[i])
    else if FallbackInstance(l, s, i) != 0 then
      l.RankFalls(i);
      Read(l, s, l.readFallbackInstances[i])
    else if OwnPath(l, i) != [] && OwnPath(l, i) in s.disk then Some(s.disk[OwnPath(l, i)])
    else None
  }

  /** A file's contents as they would be after a commit; nothing if there are none. */
  function Effective(l: Layout, s: Store, i: nat): Text
    requires l.Acyclic()
  {
    match Read(l, s, i)
    case None => []
    case Some(bytes) => bytes
  }

  /** The stage with a copy of File object `i` in it. */
  function Stage(l: Layout, s: Store, i: nat): (r: Store)
    requires l.Acyclic() && i in l.paths
    ensures i in r.staged
  {
    if i in s.staged then s else s.(staged := s.staged[i := Effective(l, s, i)])
  }

  datatype WriteError = InvalidFileStartPosition | FileFull | ValueOutOfRange | NotOurs

  function Zeros(n: nat): Text {
    seq(n, _ => '\0')
  }

  /** `data` written over `bytes` from `start` on. */
  function Overwrite(bytes: Text, start: nat, data: Text): Text
    requires start <= |bytes|
  {
    bytes[..start] + data + if start + |data| < |bytes| then bytes[start + |data|..] else []
  }

  /** AtomicWriteFile; a start of -1 appends. A refused write can still have staged a copy. */
  function Write(l: Layout, s: Store, i: nat, fileStart: int, data: Text): (Store, Result<nat, WriteError>)
    requires l.Acyclic()
  {
    if i !in l.paths then (s, Err(InvalidFileStartPosition))
    else
      var s1 := Stage(l, s, i);
      var bytes := s1.staged[i];
      var start := if fileStart == -1 then |bytes| else fileStart;
      if fileStart < -1 || start > |bytes| then (s1, Err(InvalidFileStartPosition))
      else if start + |data| > MAX_FILE_BYTES then (s1, Err(FileFull))
      else (s1.(staged := s1.staged[i := Overwrite(bytes, start, data)]), Ok(start))
  }

  /** WriteProperty File_Size: truncates, or extends with zero octets. */
  function Resize(l: Layout, s: Store, i: nat, newSize: nat): (Store, Option<WriteError>)
    requires l.Acyclic()
  {
    if newSize > MAX_FILE_BYTES then (s, Some(ValueOutOfRange))
    else if i !in l.paths then (s, Some(NotOurs))
    else
      var s1 := Stage(l, s, i);
      var bytes := s1.staged[i];
      (s1.(staged := s1.staged[i := if newSize <= |bytes| then bytes[..newSize] else bytes + Zeros(newSize - |bytes|)]),
       None)
  }

  function Discard(s: Store): Store {
    s.(staged := map[], promotes := false)
  }

  // ---- Validation ---------------------------------------------------------

  function ParseBlocks(c: Crypto, blocks: seq<Text>): (r: Option<seq<X509>>)
    ensures r.Some? ==> |r.value| == |blocks|
  {
    if blocks == [] then Some([])
    else
      var first, rest := c.certificate(blocks[0]), ParseBlocks(c, blocks[1..]);
      if first.None? || rest.None? then None else Some([first.value] + rest.value)
  }

  /** Every certificate in a PEM blob; None if it is not only PEM certificates. */
  function ParseCertificates(c: Crypto, pem: Text): Option<seq<X509>> {
    match Pem.SplitBlocks(pem, Pem.MarksOf("CERTIFICATE"), 0)
    case Err(_) => None
    case Ok(blocks) => ParseBlocks(c, blocks)
  }

  /** The certificates of several File objects, one after the other. */
  function IssuersOf(c: Crypto, l: Layout, s: Store, instances: seq<nat>): Option<seq<X509>>
    requires l.Acyclic()
  {
    if instances == [] then Some([])
    else
      var first := ParseCertificates(c, Effective(l, s, instances[0]));
      var rest := IssuersOf(c, l, s, instances[1..]);
      if first.None? || rest.None? then None else Some(first.value + rest.value)
  }

  function KeyAt(c: Crypto, disk: Disk, path: Path): Option<Key> {
    if path != [] && path in disk then c.privateKey(disk[path]) else None
  }

  datatype Refusal = IssuerUnreadable | NoIssuer | OperationalUnreadable | NoPrivateKey | KeyMismatch |
                     OperationalIsCa | DoesNotChain(role: Role)

  function RoleRefusal(c: Crypto, operational: seq<X509>, issuers: seq<X509>): Option<Refusal>
    requires operational != []
  {
    if c.isCa(operational[0]) then Some(OperationalIsCa)
    else if !c.chains(operational[0], operational[1..], issuers, TlsServer) then Some(DoesNotChain(TlsServer))
    else if !c.chains(operational[0], operational[1..], issuers, TlsClient) then Some(DoesNotChain(TlsClient))
    else None
  }

  /** The checks of ValidateStaged, on what was parsed of the issuers and the operational certificate, and on the keys
      in the private and the pending key's file. */
  function Judge(c: Crypto, s: Store, issuers: Option<seq<X509>>, operational: Option<seq<X509>>, key: Option<Key>,
                 pending: Option<Key>): (Store, Option<Refusal>) {
    if issuers.None? then (s, Some(IssuerUnreadable))
    else if issuers.value == [] then (s, Some(NoIssuer))
    else if operational.None? || operational.value == [] then (s, Some(OperationalUnreadable))
    else
      var wanted := Some(c.publicKey(operational.value[0]));
      if key == wanted then (s.(promotes := false), RoleRefusal(c, operational.value, issuers.value))
      else if pending == wanted then (s.(promotes := true), RoleRefusal(c, operational.value, issuers.value))
      else (s.(promotes := false), Some(if key.None? then NoPrivateKey else KeyMismatch))
  }

  /** ValidateStaged: whether the files as they would be after a commit may go live, and whether the commit then
      brings in the pending key. */
  function Validate(c: Crypto, l: Layout, s: Store): (Store, Option<Refusal>)
    requires l.Acyclic()
  {
    Judge(c, s, IssuersOf(c, l, s, l.issuerInstances), ParseCertificates(c, Effective(l, s, l.operationalInstance)),
          KeyAt(c, s.disk, l.privateKeyPath), KeyAt(c, s.disk, l.pendingPrivateKeyPath))
  }

  // ---- Commit -------------------------------------------------------------

  /** The first loop of CommitStaged: a temporary file per staged copy; a failure removes those of `written` again. */
  function WriteTemps(l: Layout, s: Store, instances: seq<nat>, written: seq<Path>, disk: Disk, env: Env): (Disk, Outcome)
    requires forall i :: i in instances ==> i in s.staged
    decreases |instances|
  {
    if instances == [] then (disk, Done(true))
    else
      var i := instances[0];
      if i !in l.paths then RemoveTemps(disk, written, env)
      else
        var (disk1, wrote) := WriteTemp(disk, l.paths[i], s.staged[i], env);
        if wrote.Crashed? then (disk1, Crashed)
        else if !wrote.ok then RemoveTemps(disk1, written, env)
        else WriteTemps(l, s, instances[1..], written + [l.paths[i]], disk1, env)
  }

  /** The second loop: each temporary file is renamed into place, up to the first failure. */
  function RenameTemps(paths: seq<Path>, disk: Disk, env: Env): (Disk, Outcome)
    decreases |paths|
  {
    if paths == [] then (disk, Done(true))
    else
      var (disk1, renamed) := Rename(disk, Tmp(paths[0]), paths[0], env.rename(paths[0]));
      if renamed == Done(true) then RenameTemps(paths[1..], disk1, env) else (disk1, renamed)
  }

  function PathsOf(l: Layout, instances: seq<nat>): seq<Path>
    requires forall i :: i in instances ==> i in l.paths
  {
    if instances == [] then [] else [l.paths[instances[0]]] + PathsOf(l, instances[1..])
  }

  function Promote(l: Layout, disk: Disk, env: Env): (Disk, Outcome) {
    Rename(disk, l.pendingPrivateKeyPath, l.privateKeyPath, env.promote)
  }

  /** CommitStaged. After a crash only the disk is left. */
  function Commit(l: Layout, s: Store, env: Env): (Store, Outcome)
    requires s.staged.Keys <= l.paths.Keys
  {
    var instances := Ascending(s.staged.Keys);
    var (disk1, wrote) := WriteTemps(l, s, instances, [], s.disk, env);
    if wrote != Done(true) then (s.(disk := disk1), wrote)
    else
      var (disk2, renamed) := RenameTemps(PathsOf(l, instances), disk1, env);
      if renamed != Done(true) then (s.(disk := disk2), renamed)
      else if !s.promotes then (s.(disk := disk2, staged := map[]), Done(true))
      else
        var (disk3, promoted) := Promote(l, disk2, env);
        (Store(disk3, map[], promoted != Done(true)), promoted)
  }

  // ---- The pending key ----------------------------------------------------

  /** The first certificate in the operational certificate's file on disk, if that file parses. */
  function OperationalOnDisk(c: Crypto, l: Layout, disk: Disk): Option<X509> {
    if l.operationalInstance !in l.paths || l.paths[l.operationalInstance] !in disk then None
    else
      match ParseCertificates(c, disk[l.paths[l.operationalInstance]])
      case None => None
      case Some(certs) => if certs == [] then None else Some(certs[0])
  }

  /** ReconcilePendingKey: finishes a swap that an earlier activation did not. */
  function Reconcile(c: Crypto, l: Layout, disk: Disk, env: Env): (Disk, Outcome) {
    if l.pendingPrivateKeyPath == [] || l.pendingPrivateKeyPath !in disk then (disk, Done(true))
    else
      var operational := OperationalOnDisk(c, l, disk);
      if operational.None? then (disk, Done(true))
      else
        var wanted := Some(c.publicKey(operational.value));
        if KeyAt(c, disk, l.privateKeyPath) == wanted || KeyAt(c, disk, l.pendingPrivateKeyPath) != wanted then
          (disk, Done(true))
        else Promote(l, disk, env)
  }

  /** GenerateKeyAndCsr's files: key and request are both written before either replaces anything, the key first. */
  function ReplaceBoth(disk: Disk, key: Path, keyPem: Text, csr: Path, csrPem: Text, env: Env): (Disk, Outcome) {
    var (disk1, wroteKey) := WriteTemp(disk, key, keyPem, env);
    if wroteKey != Done(true) then (disk1, wroteKey)
    else
      var (disk2, wroteCsr) := WriteTemp(disk1, csr, csrPem, env);
      if wroteCsr.Crashed? then (disk2, Crashed)
      else if !wroteCsr.ok then RemoveTemps(disk2, [key], env)
      else
        var (disk3, movedKey) := Rename(disk2, Tmp(key), key, env.rename(key));
        if movedKey.Crashed? then (disk3, Crashed)
        else if !movedKey.ok then RemoveTemps(disk3, [key, csr], env)
        else Rename(disk3, Tmp(csr), csr, env.rename(csr))
  }

  /** GenerateKeyAndCsr, for a generated key and request: refused while writes are staged, without a place for the
      request, or without a readable operational certificate. */
  function Generate(c: Crypto, l: Layout, s: Store, keyPem: Text, csrPem: Text, env: Env): (Store, Outcome)
    requires l.Acyclic()
  {
    if s.staged != map[] || l.csrInstance !in l.paths || l.pendingPrivateKeyPath == [] then (s, Done(false))
    else
      var operational := ParseCertificates(c, Effective(l, s, l.operationalInstance));
      if operational.None? || operational.value == [] then (s, Done(false))
      else
        var (disk, o) := ReplaceBoth(s.disk, l.pendingPrivateKeyPath, keyPem, l.paths[l.csrInstance], csrPem, env);
        (s.(disk := disk), o)
  }
}
