/** How the hub gets its first files: when the start-up request and the import of a response succeed, and exactly what
    they then leave on disk (cert_tool.cpp). */
module CertSetup {
  import opened Octets
  import opened CertFiles
  import opened CertCommit
  import opened CertRun

  // ---- The start-up request -----------------------------------------------

  /** No key at all and no request yet: the only state in which a key is made. */
  predicate NoKeyYet(l: Layout, disk: Disk) {
    CsrPath(l) !in disk && l.privateKeyPath !in disk && l.pendingPrivateKeyPath !in disk
  }

  /** EnsureHubRequest succeeds exactly in three cases, each with the zip there in the end: it was there, or it is made
      from the request that is there, or key, request and zip are all made. */
  lemma RequestIff(c: Crypto, l: Layout, zip: Path, disk: Disk, keyPem: Text, csrPem: Text, zipBytes: Text, env: Env)
    requires HubLayout(l, zip)
    ensures var (e, o) := EnsureRequest(c, l, zip, disk, keyPem, csrPem, zipBytes, env);
            var made := c.requestKey(csrPem).Some? && env.write(l.privateKeyPath).Succeeds? &&
                        env.write(CsrPath(l)).Succeeds? && env.write(zip).Succeeds?;
            (o == Done(true) <==>
             zip in disk || (CsrKey(c, l, disk).Some? && env.write(zip).Succeeds?) || (NoKeyYet(l, disk) && made)) &&
            (zip in disk ==> e == disk) &&
            (zip !in disk && o == Done(true) ==>
               FileHolds(e, zip, zipBytes) &&
               if CsrPath(l) in disk then SameKeyFiles(l, disk, e)
               else FileHolds(e, l.privateKeyPath, keyPem) && FileHolds(e, CsrPath(l), csrPem))
  {
    FilesApart(l, zip);
    assert l.pendingPrivateKeyPath != [] && l.privateKeyPath != l.pendingPrivateKeyPath;
    hide HubLayout, Tmp, OwnPath;
  }

  // ---- Reading a response -------------------------------------------------

  predicate AllCertificates(t: Tools, files: seq<Text>, certs: seq<X509>) {
    |files| == |certs| && forall k :: 0 <= k < |files| ==> t.anyCertificate(files[k]) == Some(certs[k])
  }

  lemma {:induction false} ParseIssuersIff(t: Tools, files: seq<Text>, certs: seq<X509>)
    ensures ParseIssuers(t, files) == Some(certs) <==> AllCertificates(t, files, certs)
    decreases |files|
  {
    if files != [] && certs != [] {
      ParseIssuersIff(t, files[1..], certs[1..]);
      assert [certs[0]] + certs[1..] == certs;
      if AllCertificates(t, files[1..], certs[1..]) && t.anyCertificate(files[0]) == Some(certs[0]) {
        forall k | 0 <= k < |files|
          ensures t.anyCertificate(files[k]) == Some(certs[k])
        {
          if k > 0 {
            assert files[k] == files[1..][k - 1] && certs[k] == certs[1..][k - 1];
          }
        }
      }
    }
  }

  predicate FirstSigner(t: Tools, issuers: seq<X509>, x: X509, j: nat) {
    j < |issuers| && t.issued(issuers[j], x) && forall i :: 0 <= i < j ==> !t.issued(issuers[i], x)
  }

  /** With the one at `j` moved to the front. */
  function Rotated(issuers: seq<X509>, j: nat): seq<X509>
    requires j < |issuers|
  {
    [issuers[j]] + issuers[..j] + issuers[j + 1..]
  }

  lemma RotatedStep(issuers: seq<X509>, j: nat)
    requires 0 < j < |issuers|
    ensures var rest := Rotated(issuers[1..], j - 1);
            rest != [] && Rotated(issuers, j) == [rest[0], issuers[0]] + rest[1..]
  {
    var rest := Rotated(issuers[1..], j - 1);
    assert issuers[1..][j..] == issuers[j + 1..];
    assert rest[1..] == issuers[1..][..j - 1] + issuers[j + 1..];
    assert issuers[..j] == [issuers[0]] + issuers[1..][..j - 1];
  }

  /** The first signer comes to the front, the others keep their order. */
  lemma {:induction false} SignerFirstIs(t: Tools, issuers: seq<X509>, x: X509, j: nat)
    requires FirstSigner(t, issuers, x, j)
    ensures SignerFirst(t, issuers, x) == Some(Rotated(issuers, j))
    decreases j
  {
    if j == 0 {
      assert issuers == Rotated(issuers, 0);
    } else {
      hide Rotated, SignerFirst;
      SignerFirstIs(t, issuers[1..], x, j - 1);
      SignerFirstStep(t, issuers, x, Rotated(issuers[1..], j - 1));
      RotatedStep(issuers, j);
    }
  }

  lemma SignerFirstStep(t: Tools, issuers: seq<X509>, x: X509, rest: seq<X509>)
    requires issuers != [] && !t.issued(issuers[0], x) && SignerFirst(t, issuers[1..], x) == Some(rest)
    ensures rest != [] && SignerFirst(t, issuers, x) == Some([rest[0], issuers[0]] + rest[1..])
  {
  }

  lemma {:induction false} SomeFirstSigner(t: Tools, issuers: seq<X509>, x: X509) returns (j: nat)
    requires exists i :: i in issuers && t.issued(i, x)
    ensures FirstSigner(t, issuers, x, j)
    decreases |issuers|
  {
    if t.issued(issuers[0], x) {
      j := 0;
    } else {
      assert issuers == [issuers[0]] + issuers[1..];
      j := SomeFirstSigner(t, issuers[1..], x);
      j := j + 1;
      assert issuers[j] == issuers[1..][j - 1];
    }
  }

  /** The first candidate that is a certificate for this key. */
  predicate FirstFor(c: Crypto, t: Tools, candidates: seq<Text>, key: Key, k: nat) {
    k < |candidates| && IsFor(c, t, candidates[k], key) && forall j :: 0 <= j < k ==> !IsFor(c, t, candidates[j], key)
  }

  lemma {:induction false} SomeFirstFor(c: Crypto, t: Tools, candidates: seq<Text>, key: Key) returns (k: nat)
    requires exists j :: 0 <= j < |candidates| && IsFor(c, t, candidates[j], key)
    ensures FirstFor(c, t, candidates, key, k)
    decreases |candidates|
  {
    if IsFor(c, t, candidates[0], key) {
      k := 0;
    } else {
      var j :| 0 <= j < |candidates| && IsFor(c, t, candidates[j], key);
      assert candidates[1..][j - 1] == candidates[j];
      k := SomeFirstFor(c, t, candidates[1..], key);
      k := k + 1;
      assert candidates[k] == candidates[1..][k - 1];
    }
  }

  /** What a response must hold: candidate `k` is the hub's certificate, the issuer files are certificates, and issuer
      `j` is the first that signed it. */
  predicate Answers(c: Crypto, t: Tools, r: Response, key: Key, k: nat, issuers: seq<X509>, j: nat) {
    FirstFor(c, t, r.candidates, key, k) && !t.expired(t.anyCertificate(r.candidates[k]).value) &&
    AllCertificates(t, r.issuers, issuers) && |issuers| <= 2 &&
    FirstSigner(t, issuers, t.anyCertificate(r.candidates[k]).value, j)
  }

  /** ReadCariResponse takes exactly the responses that answer, and of them the first certificate for the key and the
      issuers, the first signer in front. */
  lemma ReadResponseIff(c: Crypto, t: Tools, r: Response, key: Key)
    ensures ReadResponse(c, t, r, key).Some? <==>
            exists k: nat, issuers: seq<X509>, j: nat :: Answers(c, t, r, key, k, issuers, j)
    ensures forall k: nat, issuers: seq<X509>, j: nat :: Answers(c, t, r, key, k, issuers, j) ==>
              ReadResponse(c, t, r, key) == Some((t.anyCertificate(r.candidates[k]).value, Rotated(issuers, j)))
  {
    hide ParseIssuers, SignerFirst, Pick;
    forall k: nat, issuers: seq<X509>, j: nat | Answers(c, t, r, key, k, issuers, j)
      ensures ReadResponse(c, t, r, key) == Some((t.anyCertificate(r.candidates[k]).value, Rotated(issuers, j)))
    {
      PickIsFirst(c, t, r.candidates, key, k);
      ParseIssuersIff(t, r.issuers, issuers);
      SignerFirstIs(t, issuers, t.anyCertificate(r.candidates[k]).value, j);
    }
    if ReadResponse(c, t, r, key).Some? {
      var x := Pick(c, t, r.candidates, key).value;
      var k := SomeFirstFor(c, t, r.candidates, key);
      PickIsFirst(c, t, r.candidates, key, k);
      var issuers := ParseIssuers(t, r.issuers).value;
      ParseIssuersIff(t, r.issuers, issuers);
      var j := SomeFirstSigner(t, issuers, x);
      SignerFirstIs(t, issuers, x, j);
      assert Answers(c, t, r, key, k, issuers, j);
    }
  }

  // ---- Importing it -------------------------------------------------------

  /** As many of three files as were written hold their contents; no other file is touched. */
  ghost predicate HoldThree(d: Disk, e: Disk, p: Path, x: Text, q: Path, y: Text, r: Path, z: Text, written: nat) {
    (if written > 0 then FileHolds(e, p, x) else Same(d, e, p)) &&
    (if written > 1 then FileHolds(e, q, y) else Same(d, e, q)) &&
    (if written > 2 then FileHolds(e, r, z) else Same(d, e, r)) &&
    e.Keys <= d.Keys + {p, q, r} && forall f :: f in d && f !in {p, q, r} ==> f in e && e[f] == d[f]
  }

  lemma WriteThree(d: Disk, p: Path, x: Text, q: Path, y: Text, r: Path, z: Text, written: nat)
    requires p != q && p != r && q != r
    ensures var d1 := if written > 0 then d[p := x] else d;
            var d2 := if written > 1 then d1[q := y] else d1;
            HoldThree(d, if written > 2 then d2[r := z] else d2, p, x, q, y, r, z, written)
  {
  }

  /** An import puts the certificate, its signer and the other issuer (or the signer again) in their three places, in
      that order as far as it gets, and leaves every other file alone; without an answer it does nothing. */
  lemma ImportIs(c: Crypto, t: Tools, l: Layout, zip: Path, disk: Disk, r: Response, written: nat)
    requires HubLayout(l, zip)
    ensures var e := Import(c, t, l, disk, r, written);
            var answer := if CsrKey(c, l, disk).None? then None else ReadResponse(c, t, r, CsrKey(c, l, disk).value);
            if answer.None? then e == disk
            else
              var (x, issuers) := answer.value;
              HoldThree(disk, e, OperationalPath(l), t.pemOf(x),
                           OwnPath(l, l.issuerInstances[0]), t.pemOf(issuers[0]), OwnPath(l, l.issuerInstances[1]),
                           t.pemOf(if |issuers| == 2 then issuers[1] else issuers[0]), written)
  {
    hide ReadResponse, CsrKey, HoldThree;
    FilesApart(l, zip);
    var slot1, slot2 := OwnPath(l, l.issuerInstances[0]), OwnPath(l, l.issuerInstances[1]);
    assert l.issuerInstances[0] in l.issuerInstances && l.issuerInstances[1] in l.issuerInstances;
    assert slot1 != slot2;
    hide HubLayout, OwnPath, Tmp, OperationalPath;
    if CsrKey(c, l, disk).Some? && ReadResponse(c, t, r, CsrKey(c, l, disk).value).Some? {
      var (x, issuers) := ReadResponse(c, t, r, CsrKey(c, l, disk).value).value;
      WriteThree(disk, OperationalPath(l), t.pemOf(x), slot1, t.pemOf(issuers[0]),
                 slot2, t.pemOf(issuers[|issuers| - 1]), written);
    }
  }

  /** After a whole import the certificate on disk is the answer's, for the key of the request, and the slots parse to
      its signer and the other issuer. */
  lemma ImportedCertificates(c: Crypto, t: Tools, l: Layout, zip: Path, disk: Disk, r: Response, k: nat,
                             issuers: seq<X509>, j: nat)
    requires HubLayout(l, zip) && PemLaw(c, t) && CsrKey(c, l, disk).Some?
    requires Answers(c, t, r, CsrKey(c, l, disk).value, k, issuers, j)
    ensures var e := Import(c, t, l, disk, r, 3);
            var slot1, slot2 := OwnPath(l, l.issuerInstances[0]), OwnPath(l, l.issuerInstances[1]);
            OperationalOnDisk(c, l, e) == t.anyCertificate(r.candidates[k]) &&
            slot1 in e && ParseCertificates(c, e[slot1]) == Some([issuers[j]]) &&
            slot2 in e && ParseCertificates(c, e[slot2]) == Some([issuers[if |issuers| == 2 then 1 - j else j]])
  {
    hide ParseCertificates, ReadResponse, CsrKey, Import;
    ReadResponseIff(c, t, r, CsrKey(c, l, disk).value);
    ImportIs(c, t, l, zip, disk, r, 3);
    assert |issuers| == 2 ==> Rotated(issuers, j)[1] == issuers[1 - j];
  }
}
