/** The hub's certificate life: staged writes, activation, GENERATE_CSR_FILE, stops and crashes, import, start-up
    (main.cpp and cert_tool.cpp over cert_store.cpp), and what holds in every run of it. */
module CertRun {
  import opened Octets
  import opened CertFiles
  import opened CertCommit

  // ---- Import and the start-up request ------------------------------------

  /** What importing needs from OpenSSL beside the store's functions. */
  datatype Tools = Tools(
    anyCertificate: Text -> Option<X509>,   // PEM or DER
    pemOf: X509 -> Text,
    expired: X509 -> bool,
    issued: (X509, X509) -> bool)           // issuer, certificate

  /** A certificate written as PEM is read as that one certificate. */
  ghost predicate PemLaw(c: Crypto, t: Tools) {
    forall x: X509 :: ParseCertificates(c, t.pemOf(x)) == Some([x])
  }

  /** The files of a CARI response that matter: operational certificates, the hub's own place first, and issuers. */
  datatype Response = Response(candidates: seq<Text>, issuers: seq<Text>)

  /** A file that is a certificate for this key. */
  predicate IsFor(c: Crypto, t: Tools, file: Text, key: Key) {
    t.anyCertificate(file).Some? && c.publicKey(t.anyCertificate(file).value) == key
  }

  /** The first candidate that is a certificate for this key. */
  function Pick(c: Crypto, t: Tools, candidates: seq<Text>, key: Key): (r: Option<X509>)
    ensures r.Some? ==> c.publicKey(r.value) == key
    ensures r.None? <==> forall k :: 0 <= k < |candidates| ==> !IsFor(c, t, candidates[k], key)
  {
    if candidates == [] then None
    else if IsFor(c, t, candidates[0], key) then t.anyCertificate(candidates[0])
    else Pick(c, t, candidates[1..], key)
  }

  lemma {:induction false} PickIsFirst(c: Crypto, t: Tools, candidates: seq<Text>, key: Key, k: nat)
    requires k < |candidates| && IsFor(c, t, candidates[k], key)
    requires forall j :: 0 <= j < k ==> !IsFor(c, t, candidates[j], key)
    ensures Pick(c, t, candidates, key) == t.anyCertificate(candidates[k])
    decreases k
  {
    if k > 0 {
      PickIsFirst(c, t, candidates[1..], key, k - 1);
    }
  }

  function ParseIssuers(t: Tools, issuers: seq<Text>): Option<seq<X509>> {
    if issuers == [] then Some([])
    else
      var first, rest := t.anyCertificate(issuers[0]), ParseIssuers(t, issuers[1..]);
      if first.None? || rest.None? then None else Some([first.value] + rest.value)
  }

  /** The issuers with the first one that signed `x` moved to the front; None if none did. */
  function SignerFirst(t: Tools, issuers: seq<X509>, x: X509): (r: Option<seq<X509>>)
    ensures r.None? <==> forall i :: i in issuers ==> !t.issued(i, x)
    ensures r.Some? ==> |r.value| == |issuers| && r.value != [] && t.issued(r.value[0], x)
    ensures r.Some? ==> multiset(r.value) == multiset(issuers)
  {
    if issuers == [] then None
    else
      assert issuers == [issuers[0]] + issuers[1..];
      if t.issued(issuers[0], x) then Some(issuers)
      else
        match SignerFirst(t, issuers[1..], x)
        case None => None
        case Some(rest) =>
          assert rest == [rest[0]] + rest[1..];
          Some([rest[0], issuers[0]] + rest[1..])
  }

  /** ReadCariResponse: the hub's certificate and its one or two issuers, the one that signed it first. */
  function ReadResponse(c: Crypto, t: Tools, response: Response, key: Key): (r: Option<(X509, seq<X509>)>)
    ensures r.Some? ==> c.publicKey(r.value.0) == key && !t.expired(r.value.0)
    ensures r.Some? ==> 1 <= |r.value.1| <= 2 && t.issued(r.value.1[0], r.value.0)
    ensures r.Some? ==>
              ParseIssuers(t, response.issuers).Some? &&
              multiset(r.value.1) == multiset(ParseIssuers(t, response.issuers).value)
  {
    var operational := Pick(c, t, response.candidates, key);
    if operational.None? || t.expired(operational.value) then None
    else
      var issuers := ParseIssuers(t, response.issuers);
      if issuers.None? then None
      else
        var ordered := SignerFirst(t, issuers.value, operational.value);
        if ordered.None? || |ordered.value| > 2 then None else Some((operational.value, ordered.value))
  }

  /** The layout main.cpp makes: an operational certificate, a CSR, two issuer slots, and the request zip beside them. */
  ghost predicate HubLayout(l: Layout, zip: Path) {
    l.WellFormed() && |l.issuerInstances| == 2 && l.issuerInstances[0] != l.issuerInstances[1] &&
    l.pendingPrivateKeyPath != [] &&
    l.operationalInstance in l.paths && l.csrInstance in l.paths && l.csrInstance != l.operationalInstance &&
    l.csrInstance !in l.issuerInstances && l.operationalInstance !in l.issuerInstances &&
    (forall i :: i in l.issuerInstances ==> i in l.paths) && zip !in l.Managed()
  }

  function CsrPath(l: Layout): Path {
    OwnPath(l, l.csrInstance)
  }

  function OperationalPath(l: Layout): Path {
    OwnPath(l, l.operationalInstance)
  }

  function CsrKey(c: Crypto, l: Layout, disk: Disk): Option<Key> {
    if CsrPath(l) in disk then c.requestKey(disk[CsrPath(l)]) else None
  }

  /** ImportCariResponse writes the certificate, then issuer slot 1, then issuer slot 2 (with the one issuer again if
      there is only one); `written` of these files are written. */
  function Import(c: Crypto, t: Tools, l: Layout, disk: Disk, response: Response, written: nat): Disk
    requires |l.issuerInstances| == 2
  {
    var key := CsrKey(c, l, disk);
    if key.None? then disk
    else
      match ReadResponse(c, t, response, key.value)
      case None => disk
      case Some((x, issuers)) =>
        var d1 := if written > 0 then disk[OperationalPath(l) := t.pemOf(x)] else disk;
        var d2 := if written > 1 then d1[OwnPath(l, l.issuerInstances[0]) := t.pemOf(issuers[0])] else d1;
        if written > 2 then d2[OwnPath(l, l.issuerInstances[1]) := t.pemOf(issuers[|issuers| - 1])] else d2
  }

  function WriteFile(disk: Disk, path: Path, bytes: Text, env: Env): (Disk, Outcome) {
    match env.write(path)
    case Succeeds => (disk[path := bytes], Done(true))
    case Fails => (disk, Done(false))
    case Crashes => (disk, Crashed)
  }

  /** EnsureHubRequest, with the key pair it would generate: a new key only when there is none at all. */
  function EnsureRequest(c: Crypto, l: Layout, zip: Path, disk: Disk, keyPem: Text, csrPem: Text, zipBytes: Text,
                         env: Env): (Disk, Outcome) {
    if zip in disk then (disk, Done(true))
    else if CsrPath(l) in disk then RequestZip(c, l, zip, disk, zipBytes, env)
    else if l.privateKeyPath in disk || (l.pendingPrivateKeyPath != [] && l.pendingPrivateKeyPath in disk) then
      (disk, Done(false))
    else
      var (disk1, wroteKey) := WriteFile(disk, l.privateKeyPath, keyPem, env);
      if wroteKey != Done(true) then (disk1, wroteKey)
      else
        var (disk2, wroteCsr) := WriteFile(disk1, CsrPath(l), csrPem, env);
        if wroteCsr != Done(true) then (disk2, wroteCsr) else RequestZip(c, l, zip, disk2, zipBytes, env)
  }

  function RequestZip(c: Crypto, l: Layout, zip: Path, disk: Disk, zipBytes: Text, env: Env): (Disk, Outcome) {
    if CsrKey(c, l, disk).None? then (disk, Done(false)) else WriteFile(disk, zip, zipBytes, env)
  }

  // ---- The state machine --------------------------------------------------

  datatype Hub = Running(s: Store) | Stopped(onDisk: Disk) {
    function Disk(): Disk {
      if Running? then s.disk else onDisk
    }
  }

  datatype Action =
    | WriteFileObject(i: nat, fileStart: int, data: Text)                       // AtomicWriteFile
    | ResizeFileObject(i: nat, newSize: nat)                                    // WriteProperty File_Size
    | DiscardChanges
    | Activate(env: Env)                                                        // ReinitializeDevice
    | GenerateCsr(keyPem: Text, csrPem: Text, env: Env)                         // GENERATE_CSR_FILE
    | Stop                                                                      // or a crash between calls
    | ImportResponse(response: Response, written: nat)                          // --import-cari
    | Start(env: Env, keyPem: Text, csrPem: Text, zipBytes: Text)

  /** Only the certificates can be written over BACnet. */
  predicate IsWritable(l: Layout, i: nat) {
    i == l.operationalInstance || i in l.issuerInstances
  }

  function After(r: (Store, Outcome)): Hub {
    if r.1.Crashed? then Stopped(r.0.disk) else Running(r.0)
  }

  function ActivateStep(c: Crypto, l: Layout, s: Store, env: Env): Hub
    requires l.Acyclic() && s.staged.Keys <= l.paths.Keys
  {
    if s.staged == map[] then Running(s)
    else if Validate(c, l, s).1.Some? then Running(s.(promotes := Validate(c, l, s).0.promotes))
    else After(Commit(l, s.(promotes := Validate(c, l, s).0.promotes), env))
  }

  function StartStep(c: Crypto, l: Layout, zip: Path, disk: Disk, a: Action): Hub
    requires a.Start?
  {
    var (disk1, reconciled) := Reconcile(c, l, disk, a.env);
    if reconciled.Crashed? then Stopped(disk1)
    else
      var (disk2, requested) := EnsureRequest(c, l, zip, disk1, a.keyPem, a.csrPem, a.zipBytes, a.env);
      After((Store(disk2, map[], false), requested))
  }

  function Step(c: Crypto, t: Tools, l: Layout, zip: Path, h: Hub, a: Action): Hub
    requires l.Acyclic() && |l.issuerInstances| == 2 && (h.Running? ==> h.s.staged.Keys <= l.paths.Keys)
  {
    match (h, a)
    case (Running(s), WriteFileObject(i, fileStart, data)) =>
      if IsWritable(l, i) then Running(CertFiles.Write(l, s, i, fileStart, data).0) else h
    case (Running(s), ResizeFileObject(i, newSize)) =>
      if IsWritable(l, i) then Running(CertFiles.Resize(l, s, i, newSize).0) else h
    case (Running(s), DiscardChanges) => if s.staged != map[] then Running(Discard(s)) else h
    case (Running(s), Activate(env)) => ActivateStep(c, l, s, env)
    case (Running(s), GenerateCsr(keyPem, csrPem, env)) => After(Generate(c, l, s, keyPem, csrPem, env))
    case (Running(s), Stop) => Stopped(s.disk)
    case (Stopped(disk), ImportResponse(response, written)) => Stopped(Import(c, t, l, disk, response, written))
    case (Stopped(disk), Start(_, _, _, _)) => StartStep(c, l, zip, disk, a)
    case _ => h
  }

  // ---- The invariant ------------------------------------------------------

  /** The certificate on disk, if there is one, is for the private key or for the pending key. */
  predicate CertOk(c: Crypto, l: Layout, disk: Disk) {
    match OperationalOnDisk(c, l, disk)
    case None => true
    case Some(x) =>
      KeyAt(c, disk, l.privateKeyPath) == Some(c.publicKey(x)) ||
      KeyAt(c, disk, l.pendingPrivateKeyPath) == Some(c.publicKey(x))
  }

  /** The request on disk, if there is one, is for the pending key if there is one, else for the private key. */
  predicate CsrOk(c: Crypto, l: Layout, disk: Disk) {
    CsrKey(c, l, disk).Some? ==>
      KeyAt(c, disk, if l.pendingPrivateKeyPath in disk then l.pendingPrivateKeyPath else l.privateKeyPath) ==
      CsrKey(c, l, disk)
  }

  ghost predicate HubInv(c: Crypto, l: Layout, h: Hub) {
    CertOk(c, l, h.Disk()) && CsrOk(c, l, h.Disk()) &&
    (h.Running? ==> forall i :: i in h.s.staged ==> i in l.paths && IsWritable(l, i))
  }

  predicate CertifiedForPrivateKey(c: Crypto, l: Layout, disk: Disk) {
    OperationalOnDisk(c, l, disk).Some? &&
    KeyAt(c, disk, l.privateKeyPath) == Some(c.publicKey(OperationalOnDisk(c, l, disk).value))
  }

  // ---- What each operation does to the three files the invariant is about --

  /** The operational certificate's file, the request and both keys are the same files in both. */
  ghost predicate SameKeyFiles(l: Layout, d: Disk, e: Disk) {
    Same(d, e, OperationalPath(l)) && Same(d, e, CsrPath(l)) && Same(d, e, l.privateKeyPath) &&
    Same(d, e, l.pendingPrivateKeyPath)
  }

  lemma SameKeyFilesKeepsInv(c: Crypto, l: Layout, d: Disk, e: Disk)
    requires l.operationalInstance in l.paths && l.csrInstance in l.paths
    requires SameKeyFiles(l, d, e) && CertOk(c, l, d) && CsrOk(c, l, d)
    ensures CertOk(c, l, e) && CsrOk(c, l, e) && OperationalOnDisk(c, l, e) == OperationalOnDisk(c, l, d)
    ensures CertifiedForPrivateKey(c, l, e) == CertifiedForPrivateKey(c, l, d)
  {
    hide ParseCertificates;
  }

  /** The pending key moved over the private one, everything else alone. */
  ghost predicate PromotedKey(l: Layout, d: Disk, e: Disk) {
    Same(d, e, OperationalPath(l)) && Same(d, e, CsrPath(l)) && l.pendingPrivateKeyPath in d &&
    l.pendingPrivateKeyPath !in e && l.privateKeyPath in e &&
    e[l.privateKeyPath] == d[l.pendingPrivateKeyPath]
  }

  lemma PromoteEffect(l: Layout, zip: Path, d: Disk, env: Env)
    requires HubLayout(l, zip)
    ensures var (e, o) := Promote(l, d, env);
            if o == Done(true) then PromotedKey(l, d, e) else e == d
  {
    assert OperationalPath(l) in l.paths.Values && CsrPath(l) in l.paths.Values;
  }

  lemma PromotedKeyKeepsInv(c: Crypto, l: Layout, d: Disk, e: Disk)
    requires l.operationalInstance in l.paths && l.csrInstance in l.paths && l.pendingPrivateKeyPath != []
    requires l.privateKeyPath != [] && PromotedKey(l, d, e) && CsrOk(c, l, d)
    requires OperationalOnDisk(c, l, d).Some? ==>
               KeyAt(c, d, l.pendingPrivateKeyPath) == Some(c.publicKey(OperationalOnDisk(c, l, d).value))
    ensures CertOk(c, l, e) && CsrOk(c, l, e) && OperationalOnDisk(c, l, e) == OperationalOnDisk(c, l, d)
    ensures OperationalOnDisk(c, l, e).Some? ==> CertifiedForPrivateKey(c, l, e)
  {
    hide ParseCertificates;
  }

  // ---- Activation ---------------------------------------------------------

  /** The certificate whose key a successful validation found. */
  lemma ValidatedKey(c: Crypto, l: Layout, s: Store)
    requires l.Acyclic() && Validate(c, l, s).1 == None
    ensures var certs := ParseCertificates(c, Effective(l, s, l.operationalInstance));
            certs.Some? && certs.value != [] &&
            KeyAt(c, s.disk, if Validate(c, l, s).0.promotes then l.pendingPrivateKeyPath else l.privateKeyPath) ==
            Some(c.publicKey(certs.value[0]))
  {
    hide Read, Effective, ParseCertificates, IssuersOf, KeyAt, RoleRefusal;
  }

  /** When the renames are over, the operational certificate on disk is the old one or the validated one. */
  lemma RenamedCertificate(c: Crypto, l: Layout, zip: Path, s: Store, env: Env)
    requires HubLayout(l, zip) && s.staged.Keys <= l.paths.Keys && l.csrInstance !in s.staged
    requires Validate(c, l, s).1 == None
    ensures var (e, o) := Renamed(l, s, env);
            var validated := ParseCertificates(c, Effective(l, s, l.operationalInstance)).value[0];
            Same(s.disk, e, CsrPath(l)) && Same(s.disk, e, l.privateKeyPath) &&
            Same(s.disk, e, l.pendingPrivateKeyPath) &&
            (OperationalOnDisk(c, l, e) == OperationalOnDisk(c, l, s.disk) ||
             OperationalOnDisk(c, l, e) == Some(validated)) &&
            (o == Done(true) ==> OperationalOnDisk(c, l, e) in {None, Some(validated)})
  {
    hide ParseCertificates, Renamed, Validate;
    ValidatedKey(c, l, s);
    RenamedFile(l, s, env, l.csrInstance);
    RenamedFile(l, s, env, l.operationalInstance);
    RenamedKeys(l, s, env, l.privateKeyPath);
    RenamedKeys(l, s, env, l.pendingPrivateKeyPath);
  }

  lemma CommitKeepsInv(c: Crypto, l: Layout, zip: Path, s: Store, env: Env)
    requires HubLayout(l, zip) && HubInv(c, l, Running(s)) && s.staged.Keys <= l.paths.Keys
    requires Validate(c, l, s).1 == None && Validate(c, l, s).0.promotes == s.promotes
    ensures HubInv(c, l, After(Commit(l, s, env)))
    ensures OperationalOnDisk(c, l, s.disk).Some? ==> OperationalOnDisk(c, l, Commit(l, s, env).0.disk).Some?
  {
    hide ParseCertificates, Renamed, Commit, Validate;
    var t := Commit(l, s, env).0;
    CommitSplits(l, s, env);
    RenamedCertificate(c, l, zip, s, env);
    ValidatedKey(c, l, s);
    var (e, o) := Renamed(l, s, env);
    assert CertOk(c, l, e) && CsrOk(c, l, e);
    if o == Done(true) && s.promotes {
      PromoteEffect(l, zip, e, env);
      if t.disk != e {
        PromotedKeyKeepsInv(c, l, e, t.disk);
      }
    }
  }

  // ---- Start-up -----------------------------------------------------------

  /** ReconcilePendingKey keeps the invariant, and when it returns true the certificate is for the private key. */
  lemma ReconcileEffect(c: Crypto, l: Layout, zip: Path, disk: Disk, env: Env)
    requires HubLayout(l, zip) && CertOk(c, l, disk) && CsrOk(c, l, disk)
    ensures var (e, o) := Reconcile(c, l, disk, env);
            CertOk(c, l, e) && CsrOk(c, l, e) && OperationalOnDisk(c, l, e) == OperationalOnDisk(c, l, disk) &&
            (o == Done(true) && OperationalOnDisk(c, l, e).Some? ==> CertifiedForPrivateKey(c, l, e))
  {
    hide ParseCertificates, Promote;
    var (e, o) := Reconcile(c, l, disk, env);
    PromoteEffect(l, zip, disk, env);
    if e != disk {
      PromotedKeyKeepsInv(c, l, disk, e);
    }
  }

  /** The certificate on disk is for the pending key and not for the private one: an activation stopped before its
      promotion. */
  predicate NeedsSwap(c: Crypto, l: Layout, disk: Disk) {
    OperationalOnDisk(c, l, disk).Some? &&
    var key := Some(c.publicKey(OperationalOnDisk(c, l, disk).value));
    KeyAt(c, disk, l.pendingPrivateKeyPath) == key && KeyAt(c, disk, l.privateKeyPath) != key
  }

  /** ReconcilePendingKey finishes exactly those: it promotes the pending key when one is needed and the rename succeeds,
      leaves everything alone otherwise, and returns true unless a promotion that is needed does not succeed. */
  lemma ReconcileIff(c: Crypto, l: Layout, zip: Path, disk: Disk, env: Env)
    requires HubLayout(l, zip)
    ensures var (e, o) := Reconcile(c, l, disk, env);
            (o == Done(true) <==> NeedsSwap(c, l, disk) ==> env.promote.Succeeds?) &&
            (o.Crashed? <==> NeedsSwap(c, l, disk) && env.promote.Crashes?) &&
            if NeedsSwap(c, l, disk) && env.promote.Succeeds?
            then PromotedKey(l, disk, e) && CertifiedForPrivateKey(c, l, e)
            else e == disk
  {
    hide ParseCertificates, Promote;
    var (e, o) := Reconcile(c, l, disk, env);
    PromoteEffect(l, zip, disk, env);
    PromoteIff(l, disk, env);
    if e != disk {
      assert PromotedKey(l, disk, e);
    }
  }

  lemma PromoteIff(l: Layout, disk: Disk, env: Env)
    ensures var o := Promote(l, disk, env).1;
            (o == Done(true) <==> env.promote.Succeeds? && l.pendingPrivateKeyPath in disk) &&
            (o.Crashed? <==> env.promote.Crashes?)
  {
  }

  /** A generated key and the request made for it. */
  predicate GeneratedPair(c: Crypto, keyPem: Text, csrPem: Text) {
    c.privateKey(keyPem).Some? && c.requestKey(csrPem) == c.privateKey(keyPem)
  }

  /** A key where there was none, and perhaps its request. */
  ghost predicate NewKeyFiles(l: Layout, d: Disk, e: Disk, keyPem: Text, csrPem: Text) {
    Same(d, e, OperationalPath(l)) && Same(d, e, l.pendingPrivateKeyPath) && l.pendingPrivateKeyPath !in d &&
    l.privateKeyPath !in d && CsrPath(l) !in d &&
    l.privateKeyPath in e && e[l.privateKeyPath] == keyPem && (CsrPath(l) in e ==> e[CsrPath(l)] == csrPem)
  }

  lemma RequestZipWritesZip(c: Crypto, l: Layout, zip: Path, disk: Disk, zipBytes: Text, env: Env)
    ensures RequestZip(c, l, zip, disk, zipBytes, env).0 in {disk, disk[zip := zipBytes]}
  {
  }

  /** What the request can leave on disk; a key of its own only where there was none. */
  lemma RequestDisks(c: Crypto, l: Layout, zip: Path, disk: Disk, keyPem: Text, csrPem: Text, zipBytes: Text, env: Env)
    requires l.pendingPrivateKeyPath != []
    ensures var e := EnsureRequest(c, l, zip, disk, keyPem, csrPem, zipBytes, env).0;
            var d1 := disk[l.privateKeyPath := keyPem];
            var d2 := d1[CsrPath(l) := csrPem];
            e in {disk, disk[zip := zipBytes]} ||
            (CsrPath(l) !in disk && l.privateKeyPath !in disk && l.pendingPrivateKeyPath !in disk &&
             e in {d1, d2, d2[zip := zipBytes]})
  {
    hide RequestZip, CsrPath;
    RequestZipWritesZip(c, l, zip, disk, zipBytes, env);
    RequestZipWritesZip(c, l, zip, disk[l.privateKeyPath := keyPem][CsrPath(l) := csrPem], zipBytes, env);
  }

  lemma RequestFiles(c: Crypto, l: Layout, zip: Path, disk: Disk, keyPem: Text, csrPem: Text, zipBytes: Text, env: Env)
    requires HubLayout(l, zip)
    ensures var e := EnsureRequest(c, l, zip, disk, keyPem, csrPem, zipBytes, env).0;
            SameKeyFiles(l, disk, e) || NewKeyFiles(l, disk, e, keyPem, csrPem)
  {
    FilesApart(l, zip);
    assert l.pendingPrivateKeyPath != [] && l.privateKeyPath != l.pendingPrivateKeyPath;
    hide HubLayout, Tmp, CsrPath, OperationalPath, EnsureRequest;
    RequestDisks(c, l, zip, disk, keyPem, csrPem, zipBytes, env);
  }

  lemma NewKeyFilesKeepInv(c: Crypto, l: Layout, d: Disk, e: Disk, keyPem: Text, csrPem: Text)
    requires l.operationalInstance in l.paths && l.csrInstance in l.paths
    requires l.privateKeyPath != [] && NewKeyFiles(l, d, e, keyPem, csrPem) && CertOk(c, l, d)
    requires GeneratedPair(c, keyPem, csrPem)
    ensures CertOk(c, l, e) && CsrOk(c, l, e) && OperationalOnDisk(c, l, e) == OperationalOnDisk(c, l, d)
    ensures OperationalOnDisk(c, l, d).None?
  {
    hide ParseCertificates;
  }

  lemma RequestEffect(c: Crypto, l: Layout, zip: Path, disk: Disk, keyPem: Text, csrPem: Text, zipBytes: Text, env: Env)
    requires HubLayout(l, zip) && CertOk(c, l, disk) && CsrOk(c, l, disk) && GeneratedPair(c, keyPem, csrPem)
    ensures var e := EnsureRequest(c, l, zip, disk, keyPem, csrPem, zipBytes, env).0;
            CertOk(c, l, e) && CsrOk(c, l, e) && OperationalOnDisk(c, l, e) == OperationalOnDisk(c, l, disk) &&
            (CertifiedForPrivateKey(c, l, disk) <==> CertifiedForPrivateKey(c, l, e)) &&
            (l.privateKeyPath in disk ==> Same(disk, e, l.privateKeyPath))
  {
    hide ParseCertificates, EnsureRequest, CertOk, CsrOk;
    var e := EnsureRequest(c, l, zip, disk, keyPem, csrPem, zipBytes, env).0;
    RequestFiles(c, l, zip, disk, keyPem, csrPem, zipBytes, env);
    if SameKeyFiles(l, disk, e) {
      SameKeyFilesKeepsInv(c, l, disk, e);
    } else {
      NewKeyFilesKeepInv(c, l, disk, e, keyPem, csrPem);
    }
  }

  function KeyFiles(l: Layout): set<Path> {
    {OperationalPath(l), CsrPath(l), l.privateKeyPath, l.pendingPrivateKeyPath}
  }

  lemma FilesApart(l: Layout, zip: Path)
    requires HubLayout(l, zip)
    ensures OperationalPath(l) != CsrPath(l) && OperationalPath(l) != l.privateKeyPath && CsrPath(l) != l.privateKeyPath
    ensures OperationalPath(l) != l.pendingPrivateKeyPath && CsrPath(l) != l.pendingPrivateKeyPath
    ensures zip !in KeyFiles(l) && Tmp(CsrPath(l)) != Tmp(l.pendingPrivateKeyPath)
    ensures Tmp(CsrPath(l)) !in KeyFiles(l) && Tmp(l.pendingPrivateKeyPath) !in KeyFiles(l)
    ensures forall i :: i in l.issuerInstances ==> OwnPath(l, i) !in KeyFiles(l)
  {
    assert OperationalPath(l) in l.paths.Values && CsrPath(l) in l.paths.Values;
    assert forall p :: p in KeyFiles(l) ==> p in l.Managed();
    if Tmp(CsrPath(l)) == Tmp(l.pendingPrivateKeyPath) {
      TmpIsInjective(CsrPath(l), l.pendingPrivateKeyPath);
    }
    forall i | i in l.issuerInstances
      ensures OwnPath(l, i) !in KeyFiles(l)
    {
      assert l.paths[i] in l.paths.Values;
    }
  }

  // ---- Import -------------------------------------------------------------

  lemma ImportEffect(c: Crypto, t: Tools, l: Layout, zip: Path, disk: Disk, response: Response, written: nat)
    requires HubLayout(l, zip) && PemLaw(c, t) && CertOk(c, l, disk) && CsrOk(c, l, disk)
    ensures var e := Import(c, t, l, disk, response, written);
            CertOk(c, l, e) && CsrOk(c, l, e) && Same(disk, e, CsrPath(l)) && Same(disk, e, l.privateKeyPath) &&
            Same(disk, e, l.pendingPrivateKeyPath) &&
            (OperationalOnDisk(c, l, disk).Some? ==> OperationalOnDisk(c, l, e).Some?)
  {
    hide ParseCertificates, ReadResponse;
    FilesApart(l, zip);
    var e := Import(c, t, l, disk, response, written);
    assert l.issuerInstances[0] in l.issuerInstances && l.issuerInstances[1] in l.issuerInstances;
    assert Same(disk, e, CsrPath(l)) && Same(disk, e, l.privateKeyPath) && Same(disk, e, l.pendingPrivateKeyPath);
    if Same(disk, e, OperationalPath(l)) {
      SameKeyFilesKeepsInv(c, l, disk, e);
    } else {
      var x := ReadResponse(c, t, response, CsrKey(c, l, disk).value).value.0;
      assert ParseCertificates(c, t.pemOf(x)) == Some([x]);
    }
  }

  // ---- GENERATE_CSR_FILE --------------------------------------------------

  /** Whether GENERATE_CSR_FILE got as far as replacing the pending key, and whether it then replaced the request. */
  predicate KeyReplaced(c: Crypto, l: Layout, s: Store, env: Env)
    requires l.Acyclic()
  {
    s.staged == map[] && l.csrInstance in l.paths && l.pendingPrivateKeyPath != [] &&
    ParseCertificates(c, Effective(l, s, l.operationalInstance)).Some? &&
    ParseCertificates(c, Effective(l, s, l.operationalInstance)).value != [] &&
    env.write(l.pendingPrivateKeyPath).Succeeds? && env.write(CsrPath(l)).Succeeds? &&
    env.rename(l.pendingPrivateKeyPath).Succeeds?
  }

  /** Both temporary files could be written and the key's renamed into place. */
  predicate KeyMoves(key: Path, csr: Path, env: Env) {
    env.write(key).Succeeds? && env.write(csr).Succeeds? && env.rename(key).Succeeds?
  }

  /** A replacement that does not get as far as the key changes nothing but temporary files. */
  lemma ReplaceBothStops(disk: Disk, key: Path, keyPem: Text, csr: Path, csrPem: Text, env: Env, p: Path)
    requires Tmp(key) != Tmp(csr) && p != Tmp(key) && p != Tmp(csr) && !KeyMoves(key, csr, env)
    ensures var (e, o) := ReplaceBoth(disk, key, keyPem, csr, csrPem, env); o != Done(true) && Same(disk, e, p)
  {
    var (disk1, wroteKey) := WriteTemp(disk, key, keyPem, env);
    if wroteKey == Done(true) {
      var (disk2, wroteCsr) := WriteTemp(disk1, csr, csrPem, env);
      if wroteCsr == Done(true) {
        RemoveTempsKeeps(disk2, [key, csr], env, p);
      } else {
        RemoveTempsKeeps(disk2, [key], env, p);
      }
    }
  }

  lemma ReplaceBothEffect(disk: Disk, key: Path, keyPem: Text, csr: Path, csrPem: Text, env: Env, others: set<Path>)
    requires key != csr && Tmp(key) != Tmp(csr) && Tmp(key) !in {key, csr} && Tmp(csr) !in {key, csr}
    requires others !! {key, csr, Tmp(key), Tmp(csr)}
    ensures var (e, o) := ReplaceBoth(disk, key, keyPem, csr, csrPem, env);
            var moved := KeyMoves(key, csr, env);
            (o == Done(true) <==> moved && env.rename(csr).Succeeds?) &&
            (forall p :: p in others ==> Same(disk, e, p)) &&
            (if moved then key in e && e[key] == keyPem else Same(disk, e, key)) &&
            (if moved && env.rename(csr).Succeeds? then csr in e && e[csr] == csrPem else Same(disk, e, csr))
  {
    hide RemoveTemps;
    if !KeyMoves(key, csr, env) {
      hide ReplaceBoth;
      forall p | p in others + {key, csr}
        ensures var (e, o) := ReplaceBoth(disk, key, keyPem, csr, csrPem, env); o != Done(true) && Same(disk, e, p)
      {
        ReplaceBothStops(disk, key, keyPem, csr, csrPem, env, p);
      }
      assert key in others + {key, csr};
    }
  }

  lemma GenerateEffect(c: Crypto, l: Layout, zip: Path, s: Store, keyPem: Text, csrPem: Text, env: Env)
    requires HubLayout(l, zip)
    ensures var (t, o) := Generate(c, l, s, keyPem, csrPem, env);
            t == s.(disk := t.disk) && Same(s.disk, t.disk, OperationalPath(l)) &&
            Same(s.disk, t.disk, l.privateKeyPath) &&
            (o == Done(true) <==> KeyReplaced(c, l, s, env) && env.rename(CsrPath(l)).Succeeds?) &&
            (if KeyReplaced(c, l, s, env)
             then l.pendingPrivateKeyPath in t.disk && t.disk[l.pendingPrivateKeyPath] == keyPem
             else Same(s.disk, t.disk, l.pendingPrivateKeyPath)) &&
            (if KeyReplaced(c, l, s, env) && env.rename(CsrPath(l)).Succeeds?
             then CsrPath(l) in t.disk && t.disk[CsrPath(l)] == csrPem
             else Same(s.disk, t.disk, CsrPath(l)))
  {
    hide ParseCertificates, Effective, ReplaceBoth;
    FilesApart(l, zip);
    ReplaceBothEffect(s.disk, l.pendingPrivateKeyPath, keyPem, CsrPath(l), csrPem, env,
                      {OperationalPath(l), l.privateKeyPath});
  }

  /** With a fresh key, GENERATE_CSR_FILE that replaces the pending key keeps the invariant exactly when the
      certificate on disk (if any) is for the private key, and the request is replaced too or there is none. */
  lemma GenerateKeepsInvIff(c: Crypto, l: Layout, zip: Path, s: Store, keyPem: Text, csrPem: Text, env: Env)
    requires HubLayout(l, zip) && HubInv(c, l, Running(s)) && GeneratedPair(c, keyPem, csrPem)
    requires KeyReplaced(c, l, s, env)
    requires c.privateKey(keyPem) != CsrKey(c, l, s.disk)
    requires OperationalOnDisk(c, l, s.disk).Some? ==>
               c.privateKey(keyPem) != Some(c.publicKey(OperationalOnDisk(c, l, s.disk).value))
    ensures HubInv(c, l, After(Generate(c, l, s, keyPem, csrPem, env))) <==>
            (OperationalOnDisk(c, l, s.disk).Some? ==> CertifiedForPrivateKey(c, l, s.disk)) &&
            (env.rename(CsrPath(l)).Succeeds? || CsrKey(c, l, s.disk) == None)
  {
    hide ParseCertificates, Generate, KeyReplaced;
    GenerateEffect(c, l, zip, s, keyPem, csrPem, env);
    var t := Generate(c, l, s, keyPem, csrPem, env).0;
    assert OperationalOnDisk(c, l, t.disk) == OperationalOnDisk(c, l, s.disk);
  }

  /** That is reached: when the promotion at the end of an activation fails, nothing is staged and the certificate on
      disk is for the pending key, which is still where it was, and not for the private one. */
  lemma FailedPromotion(c: Crypto, t: Tools, l: Layout, zip: Path, s: Store, env: Env)
    requires HubLayout(l, zip) && HubInv(c, l, Running(s)) && l.operationalInstance in s.staged
    requires Validate(c, l, s).1 == None && Validate(c, l, s).0.promotes && s.staged.Keys <= l.paths.Keys
    requires KeyAt(c, s.disk, l.privateKeyPath) != KeyAt(c, s.disk, l.pendingPrivateKeyPath)
    requires Renamed(l, s.(promotes := true), env).1 == Done(true) && env.promote.Fails?
    ensures var h := Step(c, t, l, zip, Running(s), Activate(env));
            h.Running? && h.s.staged == map[] && HubInv(c, l, h) &&
            OperationalOnDisk(c, l, h.s.disk).Some? && !CertifiedForPrivateKey(c, l, h.s.disk) &&
            Same(s.disk, h.s.disk, l.pendingPrivateKeyPath)
  {
    hide ParseCertificates, Renamed, Commit, Validate, KeyAt;
    var v := s.(promotes := true);
    ValidateChangesOnlyPromotes(c, l, s);
    ValidatedKey(c, l, s);
    ValidateAgain(c, l, s);
    CommitSplits(l, v, env);
    CommitKeepsInv(c, l, zip, v, env);
    PromoteEffect(l, zip, Renamed(l, v, env).0, env);
    RenamedFile(l, v, env, l.operationalInstance);
    RenamedKeys(l, v, env, l.privateKeyPath);
    RenamedKeys(l, v, env, l.pendingPrivateKeyPath);
    KeyUnchanged(c, s.disk, Renamed(l, v, env).0, l.privateKeyPath);
  }

  lemma KeyUnchanged(c: Crypto, d: Disk, e: Disk, p: Path)
    requires Same(d, e, p)
    ensures KeyAt(c, d, p) == KeyAt(c, e, p)
  {
  }

  /** Validating again gives the same verdict. */
  lemma ValidateAgain(c: Crypto, l: Layout, s: Store)
    requires l.WellFormed() && s.staged.Keys <= l.paths.Keys
    ensures var v := Validate(c, l, s).0; Validate(c, l, v) == Validate(c, l, s)
  {
    hide ParseCertificates, Read, KeyAt, RoleRefusal;
    var v := Validate(c, l, s).0;
    ValidateChangesOnlyPromotes(c, l, s);
    forall i
      ensures Read(l, s, i) == Read(l, v, i)
    {
      ReadByView(l, s, v, i);
    }
    IssuersByReads(c, l, s, v, l.issuerInstances);
    assert Read(l, s, l.operationalInstance) == Read(l, v, l.operationalInstance);
  }

  // ---- Every step, every run ----------------------------------------------

  /** What is generated belongs together; and GENERATE_CSR_FILE replaces the pending key only while the certificate on
      disk is for the private key, and not without the request. */
  predicate Careful(c: Crypto, l: Layout, h: Hub, a: Action)
    requires l.Acyclic()
  {
    match (h, a)
    case (Running(s), GenerateCsr(keyPem, csrPem, env)) =>
      GeneratedPair(c, keyPem, csrPem) &&
      (KeyReplaced(c, l, s, env) ==>
         (OperationalOnDisk(c, l, s.disk).Some? ==> CertifiedForPrivateKey(c, l, s.disk)) &&
         (env.rename(CsrPath(l)).Succeeds? || CsrKey(c, l, s.disk) == None))
    case (Stopped(_), Start(_, keyPem, csrPem, _)) => GeneratedPair(c, keyPem, csrPem)
    case _ => true
  }

  ghost predicate Sound(c: Crypto, t: Tools, l: Layout, zip: Path, h: Hub) {
    HubLayout(l, zip) && PemLaw(c, t) && HubInv(c, l, h)
  }

  /** What one step keeps: the invariant, and that there is a readable operational certificate. */
  ghost predicate StepKeeps(c: Crypto, l: Layout, h: Hub, h': Hub) {
    HubInv(c, l, h') && (OperationalOnDisk(c, l, h.Disk()).Some? ==> OperationalOnDisk(c, l, h'.Disk()).Some?)
  }

  lemma ActivateKeeps(c: Crypto, t: Tools, l: Layout, zip: Path, s: Store, env: Env)
    requires Sound(c, t, l, zip, Running(s)) && s.staged.Keys <= l.paths.Keys
    ensures StepKeeps(c, l, Running(s), ActivateStep(c, l, s, env))
  {
    hide Validate, Commit, ParseCertificates;
    ValidateChangesOnlyPromotes(c, l, s);
    if s.staged != map[] && Validate(c, l, s).1.None? {
      ValidateAgain(c, l, s);
      CommitKeepsInv(c, l, zip, Validate(c, l, s).0, env);
    }
  }

  lemma GenerateKeeps(c: Crypto, t: Tools, l: Layout, zip: Path, s: Store, keyPem: Text, csrPem: Text, env: Env)
    requires Sound(c, t, l, zip, Running(s)) && Careful(c, l, Running(s), GenerateCsr(keyPem, csrPem, env))
    ensures StepKeeps(c, l, Running(s), After(Generate(c, l, s, keyPem, csrPem, env)))
  {
    hide ParseCertificates, Generate, KeyReplaced;
    GenerateEffect(c, l, zip, s, keyPem, csrPem, env);
    var d := Generate(c, l, s, keyPem, csrPem, env).0.disk;
    assert OperationalOnDisk(c, l, d) == OperationalOnDisk(c, l, s.disk);
  }

  lemma StartKeeps(c: Crypto, t: Tools, l: Layout, zip: Path, disk: Disk, a: Action)
    requires Sound(c, t, l, zip, Stopped(disk)) && a.Start? && GeneratedPair(c, a.keyPem, a.csrPem)
    ensures StepKeeps(c, l, Stopped(disk), StartStep(c, l, zip, disk, a))
    ensures var h := StartStep(c, l, zip, disk, a);
            CertifiedForPrivateKey(c, l, h.Disk()) <==>
            OperationalOnDisk(c, l, disk).Some? && (NeedsSwap(c, l, disk) ==> a.env.promote.Succeeds?)
  {
    hide Reconcile, EnsureRequest, ParseCertificates, CertOk, CsrOk;
    ReconcileEffect(c, l, zip, disk, a.env);
    ReconcileIff(c, l, zip, disk, a.env);
    var (disk1, reconciled) := Reconcile(c, l, disk, a.env);
    if reconciled.Done? {
      RequestEffect(c, l, zip, disk1, a.keyPem, a.csrPem, a.zipBytes, a.env);
    }
  }

  /** Writing and resizing touch the stage of that one File object. */
  lemma WriteStagesOne(c: Crypto, l: Layout, s: Store, i: nat, fileStart: int, data: Text, newSize: nat)
    requires l.Acyclic() && i in l.paths
    ensures var w, r := CertFiles.Write(l, s, i, fileStart, data).0, CertFiles.Resize(l, s, i, newSize).0;
            w.disk == r.disk == s.disk && w.staged.Keys <= s.staged.Keys + {i} && r.staged.Keys <= s.staged.Keys + {i}
  {
    hide Effective;
  }

  lemma WritesKeep(c: Crypto, t: Tools, l: Layout, zip: Path, s: Store, i: nat, fileStart: int, data: Text, newSize: nat)
    requires Sound(c, t, l, zip, Running(s)) && IsWritable(l, i)
    ensures StepKeeps(c, l, Running(s), Running(CertFiles.Write(l, s, i, fileStart, data).0))
    ensures StepKeeps(c, l, Running(s), Running(CertFiles.Resize(l, s, i, newSize).0))
  {
    hide CertOk, CsrOk, OperationalOnDisk, CertFiles.Write, CertFiles.Resize;
    WriteStagesOne(c, l, s, i, fileStart, data, newSize);
  }

  lemma StepKeepsInv(c: Crypto, t: Tools, l: Layout, zip: Path, h: Hub, a: Action)
    requires Sound(c, t, l, zip, h) && Careful(c, l, h, a)
    ensures h.Running? ==> h.s.staged.Keys <= l.paths.Keys
    ensures StepKeeps(c, l, h, Step(c, t, l, zip, h, a))
  {
    hide ActivateStep, Generate, StartStep, Import, CertOk, CsrOk, OperationalOnDisk, CertFiles.Write, CertFiles.Resize;
    match (h, a)
    case (Running(s), WriteFileObject(i, fileStart, data)) =>
      if IsWritable(l, i) {
        WritesKeep(c, t, l, zip, s, i, fileStart, data, 0);
      }
    case (Running(s), ResizeFileObject(i, newSize)) =>
      if IsWritable(l, i) {
        WritesKeep(c, t, l, zip, s, i, 0, [], newSize);
      }
    case (Running(s), Activate(env)) => ActivateKeeps(c, t, l, zip, s, env);
    case (Running(s), GenerateCsr(keyPem, csrPem, env)) => GenerateKeeps(c, t, l, zip, s, keyPem, csrPem, env);
    case (Stopped(disk), ImportResponse(response, written)) => ImportEffect(c, t, l, zip, disk, response, written);
    case (Stopped(disk), Start(_, _, _, _)) => StartKeeps(c, t, l, zip, disk, a);
    case _ =>
  }

  /** The private key is as it was, or what was the pending key. */
  ghost predicate KeptOrPromoted(l: Layout, d: Disk, e: Disk) {
    l.privateKeyPath in d ==>
      l.privateKeyPath in e &&
      (e[l.privateKeyPath] == d[l.privateKeyPath] ||
       (l.pendingPrivateKeyPath in d && e[l.privateKeyPath] == d[l.pendingPrivateKeyPath]))
  }

  lemma CommitKeepsOrPromotes(l: Layout, zip: Path, s: Store, env: Env)
    requires HubLayout(l, zip) && s.staged.Keys <= l.paths.Keys
    ensures KeptOrPromoted(l, s.disk, Commit(l, s, env).0.disk)
  {
    hide Commit, Renamed;
    CommitSplits(l, s, env);
    RenamedKeys(l, s, env, l.privateKeyPath);
    RenamedKeys(l, s, env, l.pendingPrivateKeyPath);
    PromoteEffect(l, zip, Renamed(l, s, env).0, env);
  }

  lemma StartKeepsOrPromotes(c: Crypto, l: Layout, zip: Path, disk: Disk, a: Action)
    requires HubLayout(l, zip) && a.Start?
    ensures KeptOrPromoted(l, disk, StartStep(c, l, zip, disk, a).Disk())
  {
    hide OperationalOnDisk, KeyAt, CsrKey;
    PromoteEffect(l, zip, disk, a.env);
    FilesApart(l, zip);
  }

  lemma ImportKeeps(c: Crypto, t: Tools, l: Layout, zip: Path, disk: Disk, response: Response, written: nat)
    requires HubLayout(l, zip)
    ensures KeptOrPromoted(l, disk, Import(c, t, l, disk, response, written))
  {
    hide CsrKey, ReadResponse;
    FilesApart(l, zip);
    assert l.issuerInstances[0] in l.issuerInstances && l.issuerInstances[1] in l.issuerInstances;
  }

  /** An existing private key stays, or is replaced by what was the pending key: no step does anything else to it. */
  lemma PrivateKeyOnlyPromoted(c: Crypto, t: Tools, l: Layout, zip: Path, h: Hub, a: Action)
    requires HubLayout(l, zip) && (h.Running? ==> h.s.staged.Keys <= l.paths.Keys)
    ensures KeptOrPromoted(l, h.Disk(), Step(c, t, l, zip, h, a).Disk())
  {
    hide Validate, Commit, Generate, StartStep, Import, CertFiles.Write, CertFiles.Resize;
    match (h, a)
    case (Running(s), WriteFileObject(i, fileStart, data)) =>
      if IsWritable(l, i) {
        WriteStagesOne(c, l, s, i, fileStart, data, 0);
      }
    case (Running(s), ResizeFileObject(i, newSize)) =>
      if IsWritable(l, i) {
        WriteStagesOne(c, l, s, i, 0, [], newSize);
      }
    case (Running(s), Activate(env)) =>
      CommitKeepsOrPromotes(l, zip, s.(promotes := Validate(c, l, s).0.promotes), env);
    case (Running(s), GenerateCsr(keyPem, csrPem, env)) => GenerateEffect(c, l, zip, s, keyPem, csrPem, env);
    case (Stopped(disk), ImportResponse(response, written)) => ImportKeeps(c, t, l, zip, disk, response, written);
    case (Stopped(disk), Start(_, _, _, _)) => StartKeepsOrPromotes(c, l, zip, disk, a);
    case _ =>
  }

  /** The hub after a run; a step the hub cannot take (one of ours while it is stopped, say) changes nothing. */
  function Run(c: Crypto, t: Tools, l: Layout, zip: Path, h: Hub, actions: seq<Action>): Hub
    requires l.Acyclic() && |l.issuerInstances| == 2
    decreases |actions|
  {
    if actions == [] || (h.Running? && !(h.s.staged.Keys <= l.paths.Keys)) then h
    else Run(c, t, l, zip, Step(c, t, l, zip, h, actions[0]), actions[1..])
  }

  ghost predicate CarefulRun(c: Crypto, t: Tools, l: Layout, zip: Path, h: Hub, actions: seq<Action>)
    requires l.Acyclic() && |l.issuerInstances| == 2
    decreases |actions|
  {
    actions != [] && (h.Running? ==> h.s.staged.Keys <= l.paths.Keys) ==>
      Careful(c, l, h, actions[0]) && CarefulRun(c, t, l, zip, Step(c, t, l, zip, h, actions[0]), actions[1..])
  }

  /** Every run keeps the invariant, and a readable operational certificate once there is one. */
  lemma {:induction false} RunKeepsInv(c: Crypto, t: Tools, l: Layout, zip: Path, h: Hub, actions: seq<Action>)
    requires Sound(c, t, l, zip, h) && CarefulRun(c, t, l, zip, h, actions)
    ensures StepKeeps(c, l, h, Run(c, t, l, zip, h, actions))
    decreases |actions|
  {
    if actions != [] {
      hide CertOk, CsrOk, OperationalOnDisk, Careful, Step;
      StepKeepsInv(c, t, l, zip, h, actions[0]);
      RunKeepsInv(c, t, l, zip, Step(c, t, l, zip, h, actions[0]), actions[1..]);
    }
  }

  /** After every run that leaves the hub stopped - activations stopped between any two file operations included - a
      restart has the certificate on disk for the private key on disk exactly if there is a readable certificate on disk
      at all and, when it is still for the pending key alone, the one rename that is then needed succeeds; and there is
      such a certificate if there ever was. */
  lemma EveryRestartHasAMatchingPair(c: Crypto, t: Tools, l: Layout, zip: Path, h: Hub, actions: seq<Action>, a: Action)
    requires Sound(c, t, l, zip, h) && CarefulRun(c, t, l, zip, h, actions)
    requires Run(c, t, l, zip, h, actions).Stopped? && a.Start? && GeneratedPair(c, a.keyPem, a.csrPem)
    ensures var disk := Run(c, t, l, zip, h, actions).onDisk;
            (CertifiedForPrivateKey(c, l, StartStep(c, l, zip, disk, a).Disk()) <==>
             OperationalOnDisk(c, l, disk).Some? && (NeedsSwap(c, l, disk) ==> a.env.promote.Succeeds?)) &&
            (OperationalOnDisk(c, l, h.Disk()).Some? ==> OperationalOnDisk(c, l, disk).Some?)
  {
    hide CertOk, CsrOk, OperationalOnDisk, StartStep, Reconcile, CertifiedForPrivateKey;
    RunKeepsInv(c, t, l, zip, h, actions);
    StartKeeps(c, t, l, zip, Run(c, t, l, zip, h, actions).onDisk, a);
  }

  /** The same of every run from an empty folder: nothing need be known of how it starts. */
  lemma EveryRestartFromAnEmptyFolder(c: Crypto, t: Tools, l: Layout, zip: Path, actions: seq<Action>, a: Action)
    requires HubLayout(l, zip) && PemLaw(c, t) && CarefulRun(c, t, l, zip, Stopped(map[]), actions)
    requires Run(c, t, l, zip, Stopped(map[]), actions).Stopped? && a.Start? && GeneratedPair(c, a.keyPem, a.csrPem)
    ensures var disk := Run(c, t, l, zip, Stopped(map[]), actions).onDisk;
            CertifiedForPrivateKey(c, l, StartStep(c, l, zip, disk, a).Disk()) <==>
            OperationalOnDisk(c, l, disk).Some? && (NeedsSwap(c, l, disk) ==> a.env.promote.Succeeds?)
  {
    hide CertOk, CsrOk, OperationalOnDisk, StartStep, Reconcile, CertifiedForPrivateKey, HubLayout, PemLaw, Run,
      CarefulRun;
    EmptyStart(c, l);
    EveryRestartHasAMatchingPair(c, t, l, zip, Stopped(map[]), actions, a);
  }

  /** An empty folder is a consistent start. */
  lemma EmptyStart(c: Crypto, l: Layout)
    ensures HubInv(c, l, Stopped(map[]))
  {
  }
}
