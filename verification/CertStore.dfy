/** cert_store.cpp as it runs: the layout, the stage and the disk are updated in place, file operation by file
    operation. Every method is proved to do what its function in CertFiles says. */
module CertStore {
  import opened Octets
  import Pem
  import opened Listing
  import opened CertFiles
  import CertCommit

  class FileStore {
    const crypto: Crypto
    const layout: Layout
    var disk: Disk
    var staged: map<nat, Text>
    var commitPromotesPendingKey: bool

    ghost predicate Valid()
      reads this
    {
      layout.WellFormed() && staged.Keys <= layout.paths.Keys
    }

    function State(): Store
      reads this
    {
      Store(disk, staged, commitPromotesPendingKey)
    }

    /** SetLayout over an existing disk. */
    constructor (crypto: Crypto, layout: Layout, disk: Disk)
      requires layout.WellFormed()
      ensures Valid() && this.crypto == crypto && this.layout == layout && State() == Store(disk, map[], false)
    {
      this.crypto, this.layout, this.disk := crypto, layout, disk;
      staged, commitPromotesPendingKey := map[], false;
    }

    // ---- Reading and staging ----------------------------------------------

    method ReadFile(fileInstance: nat) returns (bytes: Option<Text>)
      requires Valid()
      ensures bytes == Read(layout, State(), fileInstance)
      decreases layout.Rank(fileInstance)
    {
      if fileInstance in staged {
        return Some(staged[fileInstance]);
      }
      var fallback := FallbackInstance(layout, State(), fileInstance);
      if fallback != 0 {
        layout.RankFalls(fileInstance);
        bytes := ReadFile(fallback);
        return;
      }
      var path := OwnPath(layout, fileInstance);
      return if path != [] && path in disk then Some(disk[path]) else None;
    }

    /** The staged copy, made from the current contents on the first write. */
    method StageFile(fileInstance: nat) returns (ours: bool)
      requires Valid()
      modifies this`staged
      ensures Valid() && ours == (fileInstance in layout.paths)
      ensures State() == if ours then Stage(layout, old(State()), fileInstance) else old(State())
    {
      if fileInstance in staged {
        return true;
      }
      if fileInstance !in layout.paths {
        return false;
      }
      var bytes := ReadFile(fileInstance);
      staged := staged[fileInstance := if bytes.Some? then bytes.value else []];
      return true;
    }

    method WriteFile(fileInstance: nat, fileStart: int, data: Text) returns (r: Result<nat, WriteError>)
      requires Valid()
      modifies this`staged
      ensures Valid() && (State(), r) == CertFiles.Write(layout, old(State()), fileInstance, fileStart, data)
    {
      var ours := StageFile(fileInstance);
      if !ours {
        return Err(InvalidFileStartPosition);
      }
      var bytes := staged[fileInstance];
      if fileStart < -1 {
        return Err(InvalidFileStartPosition);
      }
      var start := if fileStart == -1 then |bytes| else fileStart;
      if start > |bytes| {
        return Err(InvalidFileStartPosition);  // no holes
      }
      if start + |data| > MAX_FILE_BYTES {
        return Err(FileFull);
      }
      ghost var was := bytes;
      if start + |data| > |bytes| {
        bytes := bytes + Zeros(start + |data| - |bytes|);
      }
      bytes := bytes[..start] + data + bytes[start + |data|..];
      assert bytes == Overwrite(was, start, data);
      staged := staged[fileInstance := bytes];
      return Ok(start);
    }

    method ResizeFile(fileInstance: nat, newSize: nat) returns (error: Option<WriteError>)
      requires Valid()
      modifies this`staged
      ensures Valid() && (State(), error) == CertFiles.Resize(layout, old(State()), fileInstance, newSize)
    {
      if newSize > MAX_FILE_BYTES {
        return Some(ValueOutOfRange);
      }
      var ours := StageFile(fileInstance);
      if !ours {
        return Some(NotOurs);
      }
      var bytes := staged[fileInstance];
      bytes := if newSize <= |bytes| then bytes[..newSize] else bytes + Zeros(newSize - |bytes|);
      staged := staged[fileInstance := bytes];
      return None;
    }

    method HasStagedChanges() returns (r: bool)
      ensures r == (State().staged != map[])
    {
      return staged != map[];
    }

    method DiscardStaged()
      requires Valid()
      modifies this`staged, this`commitPromotesPendingKey
      ensures Valid() && State() == Discard(old(State()))
    {
      staged, commitPromotesPendingKey := map[], false;
    }

    // ---- Validation -------------------------------------------------------

    /** Every certificate in a PEM blob, block by block. */
    method ParsePem(pem: Text) returns (certs: Option<seq<X509>>)
      ensures certs == ParseCertificates(crypto, pem)
    {
      hide Pem.SplitBlocks, Pem.MarksOf, ParseBlocks;
      var blocks := Pem.SplitPemBlocks(pem, Pem.MarksOf("CERTIFICATE"));
      if blocks.Err? {
        return None;
      }
      certs := ParseAll(blocks.value);
    }

    method ParseAll(blocks: seq<Text>) returns (certs: Option<seq<X509>>)
      ensures certs == ParseBlocks(crypto, blocks)
    {
      var out := [];
      AppendedNothing(ParseBlocks(crypto, blocks));
      assert blocks[0..] == blocks;
      for k := 0 to |blocks|
        invariant ParseBlocks(crypto, blocks) == Appended(out, ParseBlocks(crypto, blocks[k..]))
      {
        AppendedTwice(crypto, out, blocks[k..]);
        var cert := crypto.certificate(blocks[k]);
        if cert.None? {
          return None;
        }
        assert blocks[k..][1..] == blocks[k + 1..];
        out := out + [cert.value];
      }
      assert out + [] == out && blocks[|blocks|..] == [];
      return Some(out);
    }

    /** The issuers as they would be after commit. */
    method ParseIssuers() returns (issuers: Option<seq<X509>>)
      requires Valid()
      ensures issuers == IssuersOf(crypto, layout, State(), layout.issuerInstances)
    {
      hide ParseCertificates;
      var out := [];
      var instances := layout.issuerInstances;
      AppendedNothing(IssuersOf(crypto, layout, State(), instances));
      assert instances[0..] == instances;
      for k := 0 to |instances|
        invariant IssuersOf(crypto, layout, State(), instances) ==
                  Appended(out, IssuersOf(crypto, layout, State(), instances[k..]))
      {
        AppendedIssuers(crypto, layout, State(), out, instances[k..]);
        var bytes := ReadFile(instances[k]);
        var certs := ParsePem(if bytes.Some? then bytes.value else []);
        if certs.None? {
          return None;
        }
        assert instances[k..][1..] == instances[k + 1..];
        out := out + certs.value;
      }
      assert out + [] == out && instances[|instances|..] == [];
      return Some(out);
    }

    method ValidateStaged() returns (refusal: Option<Refusal>)
      requires Valid()
      modifies this`commitPromotesPendingKey
      ensures Valid() && (State(), refusal) == Validate(crypto, layout, old(State()))
    {
      hide Read, ParseCertificates;
      var issuers := ParseIssuers();
      if issuers.None? {
        return Some(IssuerUnreadable);
      }
      if issuers.value == [] {
        return Some(NoIssuer);
      }
      var bytes := ReadFile(layout.operationalInstance);
      var operational := ParsePem(if bytes.Some? then bytes.value else []);
      if operational.None? || operational.value == [] {
        return Some(OperationalUnreadable);
      }
      var leaf := operational.value[0];
      commitPromotesPendingKey := false;
      var key := KeyAt(crypto, disk, layout.privateKeyPath);
      var pendingKey := KeyAt(crypto, disk, layout.pendingPrivateKeyPath);
      if key.Some? && crypto.publicKey(leaf) == key.value {
        // certified for the private key: no promotion
      } else if pendingKey.Some? && crypto.publicKey(leaf) == pendingKey.value {
        commitPromotesPendingKey := true;
      } else if key.None? {
        return Some(NoPrivateKey);
      } else {
        return Some(KeyMismatch);
      }
      if crypto.isCa(leaf) {
        return Some(OperationalIsCa);
      }
      if !crypto.chains(leaf, operational.value[1..], issuers.value, TlsServer) {
        return Some(DoesNotChain(TlsServer));
      }
      if !crypto.chains(leaf, operational.value[1..], issuers.value, TlsClient) {
        return Some(DoesNotChain(TlsClient));
      }
      return None;
    }

    // ---- File operations --------------------------------------------------

    method WriteTempFile(path: Path, bytes: Text, env: Env) returns (o: Outcome)
      modifies this`disk
      ensures (disk, o) == WriteTemp(old(disk), path, bytes, env)
    {
      match env.write(path) {
        case Succeeds =>
          disk := disk[Tmp(path) := bytes];
          return Done(true);
        case Fails =>
          disk := WithTemp(disk, path, env.left(path));
          return Done(false);
        case Crashes =>
          disk := WithTemp(disk, path, env.left(path));
          return Crashed;
      }
    }

    method RenameFile(from: Path, to: Path, fate: Fate) returns (o: Outcome)
      modifies this`disk
      ensures (disk, o) == Rename(old(disk), from, to, fate)
    {
      if fate == Crashes {
        return Crashed;
      }
      if fate == Fails || from !in disk {
        return Done(false);
      }
      var bytes := disk[from];
      disk := disk - {from};
      disk := disk[to := bytes];
      return Done(true);
    }

    // ---- Commit -----------------------------------------------------------

    /** Nothing is replaced before every temporary file is there; from then on a failure can leave some files old and
        some new, with the stage still complete. */
    method CommitStaged(env: Env) returns (o: Outcome)
      requires Valid()
      modifies this
      ensures Valid() && (State(), o) == Commit(layout, old(State()), env)
    {
      hide WriteTemps, RenameTemps;
      var paths;
      o, paths := WriteTempFiles(env);
      if o != Done(true) {
        return;
      }
      o := RenameTempFiles(paths, env);
      if o != Done(true) {
        return;  // what is staged stays staged
      }
      staged := map[];
      if commitPromotesPendingKey {
        o := RenameFile(layout.pendingPrivateKeyPath, layout.privateKeyPath, env.promote);
        if o != Done(true) {
          return;
        }
        commitPromotesPendingKey := false;
      }
      return Done(true);
    }

    method WriteTempFiles(env: Env) returns (o: Outcome, paths: seq<Path>)
      requires Valid()
      modifies this`disk
      ensures (disk, o) == WriteTemps(layout, old(State()), Ascending(staged.Keys), [], old(disk), env)
      ensures o == Done(true) ==> paths == PathsOf(layout, Ascending(staged.Keys))
    {
      hide WriteTemps, WriteTemp, PathsOf, Ascending;
      ghost var s := State();
      var instances := Ascending(staged.Keys);
      assert forall i :: i in instances ==> i in s.staged && i in layout.paths;
      paths := [];
      assert instances[0..] == instances;
      for k := 0 to |instances|
        invariant paths + PathsOf(layout, instances[k..]) == PathsOf(layout, instances)
        invariant WriteTemps(layout, s, instances, [], s.disk, env) ==
                  WriteTemps(layout, s, instances[k..], paths, disk, env)
      {
        WriteTempsUnfolds(layout, s, instances[k..], paths, disk, env);
        assert instances[k..][1..] == instances[k + 1..];
        var path := layout.paths[instances[k]];
        o := WriteTempFile(path, staged[instances[k]], env);
        if o.Crashed? {
          return;
        }
        if !o.ok {
          o := RemoveTempFiles(paths, env);
          return;
        }
        paths := paths + [path];
      }
      WriteTempsEnds(layout, s, instances[|instances|..], paths, disk, env);
      o := Done(true);
    }

    method RenameTempFiles(paths: seq<Path>, env: Env) returns (o: Outcome)
      modifies this`disk
      ensures (disk, o) == RenameTemps(paths, old(disk), env)
    {
      assert paths[0..] == paths;
      for k := 0 to |paths|
        invariant RenameTemps(paths, old(disk), env) == RenameTemps(paths[k..], disk, env)
      {
        assert paths[k..][1..] == paths[k + 1..];
        o := RenameFile(Tmp(paths[k]), paths[k], env.rename(paths[k]));
        if o != Done(true) {
          return;
        }
      }
      o := Done(true);
    }

    method RemoveTempFiles(written: seq<Path>, env: Env) returns (o: Outcome)
      modifies this`disk
      ensures (disk, o) == RemoveTemps(old(disk), written, env)
    {
      assert written[0..] == written;
      for k := 0 to |written|
        invariant RemoveTemps(old(disk), written, env) == RemoveTemps(disk, written[k..], env)
      {
        assert written[k..][0] == written[k] && written[k..][1..] == written[k + 1..];
        if env.remove(written[k]) == Crashes {
          return Crashed;
        }
        if env.remove(written[k]) == Succeeds {
          disk := disk - {Tmp(written[k])};
        }
      }
      return Done(false);
    }

    // ---- The pending key --------------------------------------------------

    /** Run at start-up, when nothing is staged. */
    method ReconcilePendingKey(env: Env) returns (o: Outcome)
      modifies this`disk
      ensures (disk, o) == Reconcile(crypto, layout, old(disk), env)
    {
      hide ParseCertificates;
      if layout.pendingPrivateKeyPath == [] || layout.pendingPrivateKeyPath !in disk {
        return Done(true);
      }
      if layout.operationalInstance !in layout.paths || layout.paths[layout.operationalInstance] !in disk {
        return Done(true);
      }
      var operational := ParsePem(disk[layout.paths[layout.operationalInstance]]);
      if operational.None? || operational.value == [] {
        return Done(true);  // no certificate to choose a key by
      }
      var wanted := crypto.publicKey(operational.value[0]);
      var certForCurrent := KeyAt(crypto, disk, layout.privateKeyPath) == Some(wanted);
      var certForPending := KeyAt(crypto, disk, layout.pendingPrivateKeyPath) == Some(wanted);
      if certForCurrent || !certForPending {
        return Done(true);
      }
      o := RenameFile(layout.pendingPrivateKeyPath, layout.privateKeyPath, env.promote);
    }

    /** GENERATE_CSR_FILE, for the key and request that OpenSSL makes. */
    method GenerateKeyAndCsr(keyPem: Text, csrPem: Text, env: Env) returns (o: Outcome)
      requires Valid()
      modifies this`disk
      ensures Valid() && (State(), o) == Generate(crypto, layout, old(State()), keyPem, csrPem, env)
    {
      hide ParseCertificates, Read, ReplaceBoth;
      if staged != map[] || layout.csrInstance !in layout.paths || layout.pendingPrivateKeyPath == [] {
        return Done(false);
      }
      var bytes := ReadFile(layout.operationalInstance);
      var operational := ParsePem(if bytes.Some? then bytes.value else []);
      if operational.None? || operational.value == [] {
        return Done(false);
      }
      o := ReplaceKeyAndCsr(layout.pendingPrivateKeyPath, keyPem, layout.paths[layout.csrInstance], csrPem, env);
    }

    method ReplaceKeyAndCsr(key: Path, keyPem: Text, csr: Path, csrPem: Text, env: Env) returns (o: Outcome)
      modifies this`disk
      ensures (disk, o) == ReplaceBoth(old(disk), key, keyPem, csr, csrPem, env)
    {
      o := WriteTempFile(key, keyPem, env);
      if o != Done(true) {
        return;
      }
      o := WriteTempFile(csr, csrPem, env);
      if o.Crashed? {
        return;
      }
      if !o.ok {
        o := RemoveTempFiles([key], env);
        return;
      }
      o := RenameFile(Tmp(key), key, env.rename(key));
      if o.Crashed? {
        return;
      }
      if !o.ok {
        o := RemoveTempFiles([key, csr], env);
        return;
      }
      o := RenameFile(Tmp(csr), csr, env.rename(csr));
    }

    // ---- ReinitializeDevice ------------------------------------------------

    /** ACTIVATE_CHANGES and WARMSTART: validate, then commit. Whatever happens short of a crash, every File object
        reads as before; and after a success nothing is staged and the files on disk pass the same validation. */
    method ReinitializeDevice(env: Env) returns (o: Outcome)
      requires Valid()
      modifies this
      ensures Valid()
      ensures o.Done? ==> forall i :: Read(layout, State(), i) == Read(layout, old(State()), i)
      ensures o == Done(true) && old(staged) != map[] ==>
                staged == map[] && !commitPromotesPendingKey && Validate(crypto, layout, State()) == (State(), None)
    {
      hide Read, Validate, Commit;
      ghost var s := State();
      var anything := HasStagedChanges();
      if !anything {
        return Done(true);
      }
      CertCommit.ValidateChangesOnlyPromotes(crypto, layout, s);
      var refusal := ValidateStaged();
      ghost var v := State();
      forall i
        ensures Read(layout, v, i) == Read(layout, s, i)
      {
        CertCommit.ReadByView(layout, s, v, i);
      }
      if refusal.Some? {
        return Done(false);
      }
      o := CommitStaged(env);
      if o.Done? {
        forall i
          ensures Read(layout, State(), i) == Read(layout, s, i)
        {
          CertCommit.CommitKeepsReads(layout, v, env, i);
        }
      }
      if o == Done(true) {
        CertCommit.ValidatedThenCommitted(crypto, layout, s, env);
      }
    }
  }

  /** What was parsed so far, followed by what the rest parses to. */
  ghost function Appended(out: seq<X509>, rest: Option<seq<X509>>): Option<seq<X509>> {
    if rest.None? then None else Some(out + rest.value)
  }

  lemma WriteTempsUnfolds(l: Layout, s: Store, rest: seq<nat>, written: seq<Path>, disk: Disk, env: Env)
    requires rest != [] && forall i :: i in rest ==> i in s.staged && i in l.paths
    ensures written + PathsOf(l, rest) == written + [l.paths[rest[0]]] + PathsOf(l, rest[1..])
    ensures var (disk1, wrote) := WriteTemp(disk, l.paths[rest[0]], s.staged[rest[0]], env);
            WriteTemps(l, s, rest, written, disk, env) ==
            if wrote.Crashed? then (disk1, Crashed)
            else if !wrote.ok then RemoveTemps(disk1, written, env)
            else WriteTemps(l, s, rest[1..], written + [l.paths[rest[0]]], disk1, env)
  {
    var path := l.paths[rest[0]];
    assert written + ([path] + PathsOf(l, rest[1..])) == written + [path] + PathsOf(l, rest[1..]);
  }

  lemma WriteTempsEnds(l: Layout, s: Store, rest: seq<nat>, written: seq<Path>, disk: Disk, env: Env)
    requires rest == []
    ensures written + PathsOf(l, rest) == written && WriteTemps(l, s, rest, written, disk, env) == (disk, Done(true))
  {
  }

  lemma AppendedNothing(rest: Option<seq<X509>>)
    ensures Appended([], rest) == rest
  {
    if rest.Some? {
      assert [] + rest.value == rest.value;
    }
  }

  lemma AppendedTwice(c: Crypto, out: seq<X509>, blocks: seq<Text>)
    requires blocks != []
    ensures Appended(out, ParseBlocks(c, blocks)) ==
            if c.certificate(blocks[0]).None? then None
            else Appended(out + [c.certificate(blocks[0]).value], ParseBlocks(c, blocks[1..]))
  {
    var rest := ParseBlocks(c, blocks[1..]);
    if rest.Some? && c.certificate(blocks[0]).Some? {
      var first := c.certificate(blocks[0]).value;
      assert out + ([first] + rest.value) == out + [first] + rest.value;
    }
  }

  lemma AppendedIssuers(c: Crypto, l: Layout, s: Store, out: seq<X509>, instances: seq<nat>)
    requires l.Acyclic() && instances != []
    ensures var certs := ParseCertificates(c, Effective(l, s, instances[0]));
            Appended(out, IssuersOf(c, l, s, instances)) ==
            if certs.None? then None else Appended(out + certs.value, IssuersOf(c, l, s, instances[1..]))
  {
    hide ParseCertificates, Effective;
    var certs, rest := ParseCertificates(c, Effective(l, s, instances[0])), IssuersOf(c, l, s, instances[1..]);
    if certs.Some? && rest.Some? {
      assert out + (certs.value + rest.value) == out + certs.value + rest.value;
    }
  }
}
