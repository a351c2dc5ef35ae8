/** When a staged set may go live (cert_store.cpp, ValidateStaged), told of the certificates themselves, and what an
    activation then leaves on disk. */
module CertAccept {
  import opened Octets
  import opened CertFiles
  import opened CertCommit
  import opened CertRun
  import Pem

  function Together<T>(parts: seq<seq<T>>): seq<T> {
    if parts == [] then [] else parts[0] + Together(parts[1..])
  }

  /** Every certificate of a PEM blob is that of a block of its own, in order; and nothing is there but such blocks. */
  lemma CertificatesAreBlocks(c: Crypto, pem: Text, certs: seq<X509>)
    ensures ParseCertificates(c, pem) == Some(certs) <==>
            exists gaps, blocks ::
              Pem.IsLayout(pem, Pem.MarksOf("CERTIFICATE"), gaps, blocks) && Holding(c, blocks, certs)
  {
    var m := Pem.MarksOf("CERTIFICATE");
    hide Pem.SplitBlocks, Pem.IsLayout, Pem.MarksOf, ParseBlocks;
    match Pem.SplitBlocks(pem, m, 0)
    case Ok(blocks) =>
      Pem.SplitAcceptsExactlyLayouts(pem, m, blocks);
      BlocksHold(c, blocks, certs);
      forall gaps, others | Pem.IsLayout(pem, m, gaps, others)
        ensures others == blocks
      {
        Pem.SplitAcceptsExactlyLayouts(pem, m, others);
      }
    case Err(_) =>
      forall gaps, others | Pem.IsLayout(pem, m, gaps, others)
        ensures false
      {
        Pem.SplitAcceptsExactlyLayouts(pem, m, others);
      }
  }

  /** These certificates, one in each block. */
  predicate Holding(c: Crypto, blocks: seq<Text>, certs: seq<X509>) {
    |blocks| == |certs| && forall k :: 0 <= k < |blocks| ==> c.certificate(blocks[k]) == Some(certs[k])
  }

  lemma {:induction false} BlocksHold(c: Crypto, blocks: seq<Text>, certs: seq<X509>)
    ensures ParseBlocks(c, blocks) == Some(certs) <==> Holding(c, blocks, certs)
    decreases |blocks|
  {
    if blocks != [] && certs != [] {
      BlocksHold(c, blocks[1..], certs[1..]);
      assert [certs[0]] + certs[1..] == certs;
      if Holding(c, blocks[1..], certs[1..]) && c.certificate(blocks[0]) == Some(certs[0]) {
        forall k | 0 <= k < |blocks|
          ensures c.certificate(blocks[k]) == Some(certs[k])
        {
          if k > 0 {
            assert blocks[k] == blocks[1..][k - 1] && certs[k] == certs[1..][k - 1];
          }
        }
      }
    }
  }

  // ---- What is accepted ---------------------------------------------------

  /** The certificates of one File object as it reads. */
  function CertsOf(c: Crypto, l: Layout, s: Store, i: nat): Option<seq<X509>>
    requires l.Acyclic()
  {
    ParseCertificates(c, Effective(l, s, i))
  }

  /** What each issuer slot holds. */
  ghost predicate SlotsParse(c: Crypto, l: Layout, s: Store, instances: seq<nat>, parts: seq<seq<X509>>)
    requires l.Acyclic()
  {
    |parts| == |instances| && forall k :: 0 <= k < |parts| ==> CertsOf(c, l, s, instances[k]) == Some(parts[k])
  }

  lemma {:induction false} IssuersAreJoined(c: Crypto, l: Layout, s: Store, instances: seq<nat>, parts: seq<seq<X509>>)
    requires l.Acyclic() && SlotsParse(c, l, s, instances, parts)
    ensures IssuersOf(c, l, s, instances) == Some(Together(parts))
    decreases |instances|
  {
    hide CertsOf;
    if instances != [] {
      assert CertsOf(c, l, s, instances[0]) == Some(parts[0]);
      IssuersAreJoined(c, l, s, instances[1..], parts[1..]);
      CertsAre(c, l, s, instances[0]);
    }
  }

  lemma CertsAre(c: Crypto, l: Layout, s: Store, i: nat)
    requires l.Acyclic()
    ensures CertsOf(c, l, s, i) == ParseCertificates(c, Effective(l, s, i))
  {
  }

  lemma {:induction false} IssuersHaveSlots(c: Crypto, l: Layout, s: Store, instances: seq<nat>)
      returns (parts: seq<seq<X509>>)
    requires l.Acyclic()
    ensures if IssuersOf(c, l, s, instances).Some? then SlotsParse(c, l, s, instances, parts)
            else exists k :: 0 <= k < |instances| && CertsOf(c, l, s, instances[k]).None?
    decreases |instances|
  {
    hide ParseCertificates, Effective;
    parts := [];
    if instances != [] {
      var rest := IssuersHaveSlots(c, l, s, instances[1..]);
      var first := CertsOf(c, l, s, instances[0]);
      if first.None? {
        assert CertsOf(c, l, s, instances[0]).None?;
      } else if IssuersOf(c, l, s, instances[1..]).None? {
        var k :| 0 <= k < |instances| - 1 && CertsOf(c, l, s, instances[1..][k]).None?;
        assert CertsOf(c, l, s, instances[k + 1]).None?;
      } else {
        parts := [first.value] + rest;
      }
    }
  }

  /** A leaf for this key, not a CA's, that chains to these issuers in both roles; the rest of its file is taken as
      intermediates. */
  predicate MayServe(c: Crypto, certs: seq<X509>, issuers: seq<X509>, key: Option<Key>, pending: Option<Key>) {
    certs != [] && issuers != [] && Some(c.publicKey(certs[0])) in {key, pending} && !c.isCa(certs[0]) &&
    c.chains(certs[0], certs[1..], issuers, TlsServer) && c.chains(certs[0], certs[1..], issuers, TlsClient)
  }

  /** The files as they read, issuers and operational certificate, and the keys on disk. */
  ghost predicate Acceptable(c: Crypto, l: Layout, s: Store)
    requires l.Acyclic()
  {
    exists parts: seq<seq<X509>>, certs: seq<X509> ::
      SlotsParse(c, l, s, l.issuerInstances, parts) && CertsOf(c, l, s, l.operationalInstance) == Some(certs) &&
      MayServe(c, certs, Together(parts), KeyAt(c, s.disk, l.privateKeyPath), KeyAt(c, s.disk, l.pendingPrivateKeyPath))
  }

  /** ValidateStaged accepts exactly the acceptable sets, and asks for the promotion exactly when the certificate is not
      for the private key already. */
  lemma ValidateIff(c: Crypto, l: Layout, s: Store)
    requires l.Acyclic()
    ensures Validate(c, l, s).1 == None <==> Acceptable(c, l, s)
    ensures Validate(c, l, s).1 == None ==>
              (Validate(c, l, s).0.promotes <==>
               KeyAt(c, s.disk, l.privateKeyPath) != Some(c.publicKey(CertsOf(c, l, s, l.operationalInstance).value[0])))
  {
    hide ParseCertificates, Effective, IssuersOf, KeyAt;
    CertsAre(c, l, s, l.operationalInstance);
    var parts := IssuersHaveSlots(c, l, s, l.issuerInstances);
    if IssuersOf(c, l, s, l.issuerInstances).Some? {
      IssuersAreJoined(c, l, s, l.issuerInstances, parts);
    }
    forall others: seq<seq<X509>> | SlotsParse(c, l, s, l.issuerInstances, others)
      ensures IssuersOf(c, l, s, l.issuerInstances) == Some(Together(others))
    {
      IssuersAreJoined(c, l, s, l.issuerInstances, others);
    }
  }

  /** Why a set is refused, by the first thing that is wrong with it. */
  lemma RefusalIff(c: Crypto, l: Layout, s: Store)
    requires l.Acyclic()
    ensures Validate(c, l, s).1 == Some(IssuerUnreadable) <==>
            exists k :: 0 <= k < |l.issuerInstances| && CertsOf(c, l, s, l.issuerInstances[k]).None?
    ensures forall parts: seq<seq<X509>> :: SlotsParse(c, l, s, l.issuerInstances, parts) ==>
              RefusedFor(c, l, s, Together(parts), CertsOf(c, l, s, l.operationalInstance))
  {
    hide ParseCertificates, Effective, IssuersOf, KeyAt, CertsOf;
    var found := IssuersHaveSlots(c, l, s, l.issuerInstances);
    CertsAre(c, l, s, l.operationalInstance);
    if k :| 0 <= k < |l.issuerInstances| && CertsOf(c, l, s, l.issuerInstances[k]).None? {
      assert IssuersOf(c, l, s, l.issuerInstances).None?;
    }
    forall parts: seq<seq<X509>> | SlotsParse(c, l, s, l.issuerInstances, parts)
      ensures RefusedFor(c, l, s, Together(parts), CertsOf(c, l, s, l.operationalInstance))
    {
      IssuersAreJoined(c, l, s, l.issuerInstances, parts);
    }
  }

  /** The refusals of a set whose issuers can be read. */
  ghost predicate RefusedFor(c: Crypto, l: Layout, s: Store, issuers: seq<X509>, operational: Option<seq<X509>>)
    requires l.Acyclic()
  {
    var r := Validate(c, l, s).1;
    var key, pending := KeyAt(c, s.disk, l.privateKeyPath), KeyAt(c, s.disk, l.pendingPrivateKeyPath);
    (r == Some(NoIssuer) <==> issuers == []) &&
    (r == Some(OperationalUnreadable) <==> issuers != [] && (operational.None? || operational.value == [])) &&
    (issuers != [] && operational.Some? && operational.value != [] ==>
       var x, between := operational.value[0], operational.value[1..];
       var keyed := Some(c.publicKey(x)) in {key, pending};
       var server := c.chains(x, between, issuers, TlsServer);
       (r == Some(NoPrivateKey) <==> !keyed && key == None) &&
       (r == Some(KeyMismatch) <==> !keyed && key.Some?) &&
       (r == Some(OperationalIsCa) <==> keyed && c.isCa(x)) &&
       (r == Some(DoesNotChain(TlsServer)) <==> keyed && !c.isCa(x) && !server) &&
       (r == Some(DoesNotChain(TlsClient)) <==>
          keyed && !c.isCa(x) && server && !c.chains(x, between, issuers, TlsClient)))
  }

  // ---- What is live after an activation -----------------------------------

  /** When an activation succeeds the files on disk are acceptable, by the private key alone, and nothing else would do:
      with an unacceptable set it is refused. */
  lemma ActivatedIsAcceptable(c: Crypto, l: Layout, s: Store, env: Env)
    requires l.WellFormed() && s.staged.Keys <= l.paths.Keys && Validate(c, l, s).1 == None
    requires Commit(l, s.(promotes := Validate(c, l, s).0.promotes), env).1 == Done(true)
    ensures var t := Commit(l, s.(promotes := Validate(c, l, s).0.promotes), env).0;
            t.staged == map[] && Acceptable(c, l, t) &&
            KeyAt(c, t.disk, l.privateKeyPath) == Some(c.publicKey(CertsOf(c, l, t, l.operationalInstance).value[0]))
  {
    hide Validate, Commit, CertsOf, Acceptable;
    ValidatedThenCommitted(c, l, s, env);
    ValidateIff(c, l, Commit(l, s.(promotes := Validate(c, l, s).0.promotes), env).0);
  }

  /** ACTIVATE_CHANGES with every file operation it needs succeeding: the stage goes live exactly if it is acceptable. */
  lemma ActivateIff(c: Crypto, l: Layout, s: Store, env: Env)
    requires l.WellFormed() && s.staged.Keys <= l.paths.Keys && s.staged != map[]
    requires FilesSucceed(l, s, env) && env.promote.Succeeds?
    ensures var h := ActivateStep(c, l, s, env);
            h.Running? &&
            if Acceptable(c, l, s) then
              h.s.staged == map[] && Acceptable(c, l, h.s) &&
              forall i :: i in s.staged ==> FileHolds(h.s.disk, l.paths[i], s.staged[i])
            else h.s.staged == s.staged && h.s.disk == s.disk
  {
    hide Validate, Commit, CertsOf, Acceptable;
    ValidateIff(c, l, s);
    var v := s.(promotes := Validate(c, l, s).0.promotes);
    if Acceptable(c, l, s) {
      if v.promotes {
        PromotedKeyIsThere(c, l, s);
      }
      assert FilesSucceed(l, v, env);
      CommitIff(l, v, env);
      ActivatedIsAcceptable(c, l, s, env);
    }
  }

  /** A promotion is asked for only while there is a pending key to promote. */
  lemma PromotedKeyIsThere(c: Crypto, l: Layout, s: Store)
    requires l.Acyclic() && Validate(c, l, s).1 == None && Validate(c, l, s).0.promotes
    ensures l.pendingPrivateKeyPath in s.disk
  {
    hide Effective, ParseCertificates, IssuersOf, RoleRefusal;
  }
}
