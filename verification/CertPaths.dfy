/** Where the hub's certificate files are (cert_layout.cpp), and the layout that main.cpp makes of it. */
module CertPaths {
  import opened Octets
  import opened CertFiles
  import opened CertRun

  // File object instances.
  const OPERATIONAL_CERT := 1
  const CSR := 2
  const ISSUER_CERT_1 := 3
  const ISSUER_CERT_2 := 4

  /** FillCari and the layout made from it; `dir` is the certificate folder with its '/' at the end, if it has a name,
      and `port` the port folder in it. */
  function HubPaths(dir: Text, port: Text): Layout {
    Layout(map[OPERATIONAL_CERT := dir + port + "/opr-hub.pem", CSR := dir + port + "/csr-hub.pem",
               ISSUER_CERT_1 := dir + "cert1/issuer/iss-1.pem", ISSUER_CERT_2 := dir + "cert1/issuer/iss-2.pem"],
           map[ISSUER_CERT_2 := ISSUER_CERT_1], OPERATIONAL_CERT, [ISSUER_CERT_1, ISSUER_CERT_2],
           dir + port + "/key-hub.pem", dir + "key-hub-pending.pem", CSR)
  }

  function RequestZip(dir: Text): Path {
    dir + "hub-cari-request.zip"
  }

  function FromEnd(path: Path, k: nat): Octet
    requires 0 < k <= |path|
  {
    path[|path| - k]
  }

  /** Every file of a layout ends in 'm', no temporary file and no zip does. */
  lemma EndOfPaths(dir: Text, port: Text)
    ensures var l := HubPaths(dir, port);
            forall p :: p in l.Managed() ==> p != [] && FromEnd(p, 1) == 'm' && FromEnd(Tmp(p), 1) == 'p'
  {
    var l := HubPaths(dir, port);
    forall p | p in l.Managed()
      ensures p != [] && FromEnd(p, 1) == 'm' && FromEnd(Tmp(p), 1) == 'p'
    {
      assert p in {l.paths[1], l.paths[2], l.paths[3], l.paths[4], l.privateKeyPath, l.pendingPrivateKeyPath};
    }
  }

  /** No two of them are the same file: some octet, counted from the end, differs. */
  ghost predicate Marked(l: Layout) {
    l.paths.Keys == {1, 2, 3, 4} &&
    (forall p :: p in {l.paths[1], l.paths[2], l.paths[3], l.paths[4], l.privateKeyPath, l.pendingPrivateKeyPath} ==>
       |p| >= 11) &&
    FromEnd(l.paths[3], 5) == '1' && FromEnd(l.paths[4], 5) == '2' && FromEnd(l.pendingPrivateKeyPath, 5) == 'g' &&
    FromEnd(l.paths[1], 11) == 'o' && FromEnd(l.paths[2], 11) == 'c' && FromEnd(l.privateKeyPath, 11) == 'k' &&
    FromEnd(l.paths[1], 5) == FromEnd(l.paths[2], 5) == FromEnd(l.privateKeyPath, 5) == 'b'
  }

  lemma HubPathsAreMarked(dir: Text, port: Text)
    ensures Marked(HubPaths(dir, port))
  {
  }

  /** It is a layout that the store and the runs are about, whatever the folders are called. */
  lemma HubPathsAreHubLayout(dir: Text, port: Text)
    ensures HubLayout(HubPaths(dir, port), RequestZip(dir))
  {
    var l := HubPaths(dir, port);
    EndOfPaths(dir, port);
    HubPathsAreMarked(dir, port);
    assert FromEnd(RequestZip(dir), 1) == 'p';
    assert l.readFallbackInstances == map[4 := 3] && l.issuerInstances == [3, 4];
    assert l.operationalInstance == 1 && l.csrInstance == 2;
    hide HubPaths, Tmp, RequestZip;
    MarkedIsLayout(l, RequestZip(dir));
  }

  lemma MarkedIsLayout(l: Layout, zip: Path)
    requires Marked(l) && l.readFallbackInstances == map[4 := 3] && l.issuerInstances == [3, 4]
    requires l.operationalInstance == 1 && l.csrInstance == 2 && zip != [] && FromEnd(zip, 1) == 'p'
    requires forall p :: p in l.Managed() ==> p != [] && FromEnd(p, 1) == 'm' && FromEnd(Tmp(p), 1) == 'p'
    ensures HubLayout(l, zip)
  {
    hide Tmp;
    assert l.IsRank(map[3 := 0, 4 := 1]);
    assert l.DistinctPaths() by {
      assert forall i :: i in l.paths ==> l.paths[i] != l.privateKeyPath && l.paths[i] != l.pendingPrivateKeyPath;
    }
  }
}
