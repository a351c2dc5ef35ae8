/** How the hub can lose its matching pair: GENERATE_CSR_FILE after an activation whose promotion failed. What follows
    from it in general, and one run from an empty folder in which it happens. */
module CertLoss {
  import opened Octets
  import Pem
  import opened CertFiles
  import opened CertCommit
  import opened CertRun

  // ---- In general ---------------------------------------------------------

  /** The certificate on disk is for neither key, and there is a pending key. */
  ghost predicate Lost(c: Crypto, l: Layout, h: Hub) {
    !CertOk(c, l, h.Disk()) && l.pendingPrivateKeyPath in h.Disk() && (h.Running? ==> h.s.staged.Keys <= l.paths.Keys)
  }

  /** ReconcilePendingKey finds nothing to do, and the hub starts with a certificate that is not for its private key. */
  predicate NoMatchAfter(c: Crypto, l: Layout, zip: Path, disk: Disk, a: Action)
    requires a.Start?
  {
    Reconcile(c, l, disk, a.env) == (disk, Done(true)) &&
    !CertifiedForPrivateKey(c, l, StartStep(c, l, zip, disk, a).Disk())
  }

  /** A restart does not help. */
  lemma LostPairStaysLost(c: Crypto, l: Layout, zip: Path, disk: Disk, a: Action)
    requires HubLayout(l, zip) && !CertOk(c, l, disk) && l.pendingPrivateKeyPath in disk && a.Start?
    ensures Lost(c, l, StartStep(c, l, zip, disk, a)) && NoMatchAfter(c, l, zip, disk, a)
    ensures OperationalOnDisk(c, l, StartStep(c, l, zip, disk, a).Disk()) == OperationalOnDisk(c, l, disk)
  {
    hide ParseCertificates, EnsureRequest;
    RequestFiles(c, l, zip, disk, a.keyPem, a.csrPem, a.zipBytes, a.env);
  }

  /** Every action but those that bring another certificate or the right key: an activation that passes its validation,
      an import of a response that is one, and GENERATE_CSR_FILE that happens to make the certificate's key again. */
  predicate BringsNothing(c: Crypto, t: Tools, l: Layout, h: Hub, a: Action)
    requires l.Acyclic()
  {
    match (h, a)
    case (Running(s), Activate(_)) => s.staged == map[] || Validate(c, l, s).1.Some?
    case (Running(s), GenerateCsr(keyPem, _, _)) =>
      OperationalOnDisk(c, l, s.disk).Some? ==>
        c.privateKey(keyPem) != Some(c.publicKey(OperationalOnDisk(c, l, s.disk).value))
    case (Stopped(disk), ImportResponse(response, _)) =>
      CsrKey(c, l, disk).Some? ==> ReadResponse(c, t, response, CsrKey(c, l, disk).value).None?
    case _ => true
  }

  ghost predicate BringsNothingRun(c: Crypto, t: Tools, l: Layout, zip: Path, h: Hub, actions: seq<Action>)
    requires l.Acyclic() && |l.issuerInstances| == 2
    decreases |actions|
  {
    actions != [] && (h.Running? ==> h.s.staged.Keys <= l.paths.Keys) ==>
      BringsNothing(c, t, l, h, actions[0]) &&
      BringsNothingRun(c, t, l, zip, Step(c, t, l, zip, h, actions[0]), actions[1..])
  }

  lemma GenerateStaysLost(c: Crypto, t: Tools, l: Layout, zip: Path, s: Store, keyPem: Text, csrPem: Text, env: Env)
    requires HubLayout(l, zip) && Lost(c, l, Running(s))
    requires BringsNothing(c, t, l, Running(s), GenerateCsr(keyPem, csrPem, env))
    ensures var h := After(Generate(c, l, s, keyPem, csrPem, env));
            Lost(c, l, h) && OperationalOnDisk(c, l, h.Disk()) == OperationalOnDisk(c, l, s.disk)
  {
    hide ParseCertificates, Generate, KeyReplaced;
    GenerateEffect(c, l, zip, s, keyPem, csrPem, env);
    var disk := Generate(c, l, s, keyPem, csrPem, env).0.disk;
    assert OperationalOnDisk(c, l, disk) == OperationalOnDisk(c, l, s.disk);
  }

  lemma StepStaysLost(c: Crypto, t: Tools, l: Layout, zip: Path, h: Hub, a: Action)
    requires HubLayout(l, zip) && Lost(c, l, h) && BringsNothing(c, t, l, h, a)
    ensures var g := Step(c, t, l, zip, h, a);
            Lost(c, l, g) && OperationalOnDisk(c, l, g.Disk()) == OperationalOnDisk(c, l, h.Disk())
  {
    hide Validate, Commit, Generate, StartStep, CertOk, OperationalOnDisk, ReadResponse, CsrKey, CertFiles.Write,
      CertFiles.Resize;
    match (h, a)
    case (Running(s), WriteFileObject(i, fileStart, data)) =>
      if IsWritable(l, i) {
        WriteStagesOne(c, l, s, i, fileStart, data, 0);
      }
    case (Running(s), ResizeFileObject(i, newSize)) =>
      if IsWritable(l, i) {
        WriteStagesOne(c, l, s, i, 0, [], newSize);
      }
    case (Running(s), GenerateCsr(keyPem, csrPem, env)) => GenerateStaysLost(c, t, l, zip, s, keyPem, csrPem, env);
    case (Stopped(disk), Start(_, _, _, _)) => LostPairStaysLost(c, l, zip, disk, a);
    case _ =>
  }

  /** A lost pair stays lost through every run that brings neither another certificate nor its key: the certificate on
      disk stays the same one, and no restart - though ReconcilePendingKey succeeds in each - has its key. */
  lemma {:induction false} LostRunStaysLost(c: Crypto, t: Tools, l: Layout, zip: Path, h: Hub, actions: seq<Action>,
                                            a: Action)
    requires HubLayout(l, zip) && Lost(c, l, h) && BringsNothingRun(c, t, l, zip, h, actions)
    ensures var g := Run(c, t, l, zip, h, actions);
            Lost(c, l, g) && OperationalOnDisk(c, l, g.Disk()) == OperationalOnDisk(c, l, h.Disk()) &&
            (g.Stopped? && a.Start? ==> NoMatchAfter(c, l, zip, g.onDisk, a))
    decreases |actions|
  {
    assert l.Acyclic() && |l.issuerInstances| == 2;
    hide CertOk, OperationalOnDisk, BringsNothing, Step, HubLayout, NoMatchAfter;
    if actions == [] {
      if h.Stopped? && a.Start? {
        LostPairStaysLost(c, l, zip, h.onDisk, a);
      }
    } else {
      StepStaysLost(c, t, l, zip, h, actions[0]);
      LostRunStaysLost(c, t, l, zip, Step(c, t, l, zip, h, actions[0]), actions[1..], a);
    }
  }

  /** The hub has a certificate for neither key, and neither a restart now nor one after these actions, if they bring
      neither another certificate nor its key, has a matching pair. */
  ghost predicate LostFor(c: Crypto, t: Tools, l: Layout, zip: Path, g: Hub, actions: seq<Action>, a: Action)
    requires l.Acyclic() && |l.issuerInstances| == 2 && a.Start?
  {
    !HubInv(c, l, g) && Lost(c, l, g) && OperationalOnDisk(c, l, g.Disk()).Some? &&
    NoMatchAfter(c, l, zip, g.Disk(), a) &&
    (BringsNothingRun(c, t, l, zip, g, actions) && Run(c, t, l, zip, g, actions).Stopped? ==>
       NoMatchAfter(c, l, zip, Run(c, t, l, zip, g, actions).onDisk, a))
  }

  lemma LostIsLostFor(c: Crypto, t: Tools, l: Layout, zip: Path, g: Hub, actions: seq<Action>, a: Action)
    requires HubLayout(l, zip) && Lost(c, l, g) && a.Start?
    ensures LostFor(c, t, l, zip, g, actions, a)
  {
    hide NoMatchAfter, Run, BringsNothingRun;
    LostPairStaysLost(c, l, zip, g.Disk(), a);
    if BringsNothingRun(c, t, l, zip, g, actions) {
      LostRunStaysLost(c, t, l, zip, g, actions, a);
    }
  }

  /** After an activation whose promotion failed GENERATE_CSR_FILE is not refused: with a fresh key it replaces the
      pending key that the certificate on disk needs, and the pair is lost. */
  lemma GenerateAfterFailedPromotion(c: Crypto, t: Tools, l: Layout, zip: Path, s: Store, env: Env,
                                     keyPem: Text, csrPem: Text, env2: Env, actions: seq<Action>, a: Action)
    requires HubLayout(l, zip) && HubInv(c, l, Running(s)) && l.operationalInstance in s.staged
    requires Validate(c, l, s).1 == None && Validate(c, l, s).0.promotes && s.staged.Keys <= l.paths.Keys
    requires KeyAt(c, s.disk, l.privateKeyPath) != KeyAt(c, s.disk, l.pendingPrivateKeyPath)
    requires Renamed(l, s.(promotes := true), env).1 == Done(true) && env.promote.Fails?
    requires GeneratedPair(c, keyPem, csrPem) && c.privateKey(keyPem) != KeyAt(c, s.disk, l.pendingPrivateKeyPath)
    requires env2.write(l.pendingPrivateKeyPath).Succeeds? && env2.write(CsrPath(l)).Succeeds?
    requires env2.rename(l.pendingPrivateKeyPath).Succeeds? && a.Start?
    ensures var h := Step(c, t, l, zip, Running(s), Activate(env));
            h.Running? && h.s.staged == map[] && HubInv(c, l, h) && KeyReplaced(c, l, h.s, env2) &&
            LostFor(c, t, l, zip, Step(c, t, l, zip, h, GenerateCsr(keyPem, csrPem, env2)), actions, a)
  {
    assert l.Acyclic() && |l.issuerInstances| == 2;
    hide ParseCertificates, Validate, Renamed, KeyReplaced, Step, HubLayout, Generate, CertOk, CsrOk, OperationalOnDisk,
      LostFor;
    FailedPromotion(c, t, l, zip, s, env);
    var h := Step(c, t, l, zip, Running(s), Activate(env));
    KeyUnchanged(c, s.disk, h.s.disk, l.pendingPrivateKeyPath);
    StepGenerates(c, t, l, zip, h, keyPem, csrPem, env2);
    ReplacingLosesPair(c, t, l, zip, h.s, keyPem, csrPem, env2, actions, a);
  }

  lemma StepGenerates(c: Crypto, t: Tools, l: Layout, zip: Path, h: Hub, keyPem: Text, csrPem: Text, env: Env)
    requires l.Acyclic() && |l.issuerInstances| == 2 && h.Running? && h.s.staged == map[]
    ensures Step(c, t, l, zip, h, GenerateCsr(keyPem, csrPem, env)) == After(Generate(c, l, h.s, keyPem, csrPem, env))
  {
    hide Generate;
  }

  lemma ReplacingLosesPair(c: Crypto, t: Tools, l: Layout, zip: Path, s: Store, keyPem: Text, csrPem: Text, env: Env,
                           actions: seq<Action>, a: Action)
    requires HubLayout(l, zip) && HubInv(c, l, Running(s)) && s.staged == map[]
    requires OperationalOnDisk(c, l, s.disk).Some? && !CertifiedForPrivateKey(c, l, s.disk)
    requires GeneratedPair(c, keyPem, csrPem) && c.privateKey(keyPem) != KeyAt(c, s.disk, l.pendingPrivateKeyPath)
    requires env.write(l.pendingPrivateKeyPath).Succeeds? && env.write(CsrPath(l)).Succeeds?
    requires env.rename(l.pendingPrivateKeyPath).Succeeds? && a.Start?
    ensures KeyReplaced(c, l, s, env)
    ensures LostFor(c, t, l, zip, After(Generate(c, l, s, keyPem, csrPem, env)), actions, a)
  {
    hide ParseCertificates, Generate, LostFor;
    GenerateEffect(c, l, zip, s, keyPem, csrPem, env);
    var g := After(Generate(c, l, s, keyPem, csrPem, env));
    assert OperationalOnDisk(c, l, g.Disk()) == OperationalOnDisk(c, l, s.disk);
    LostIsLostFor(c, t, l, zip, g, actions, a);
  }

  // ---- One such run -------------------------------------------------------

  const EVERYTHING_SUCCEEDS := Env(_ => Succeeds, _ => Succeeds, Succeeds, _ => Succeeds, _ => None)
  const PROMOTION_FAILS := EVERYTHING_SUCCEEDS.(promote := Fails)

  // The contents of key and request files, told apart by their length.
  const FIRST_KEY: Text := "a"
  const NEXT_KEY: Text := "bb"
  const LAST_KEY: Text := "ccc"
  const ZIP_FILE: Text := "zip"

  function CertificateText(x: X509): Text {
    Pem.MakeBlock(Pem.MarksOf("CERTIFICATE"), "\n" + seq(x, _ => 'A') + "\n")
  }

  /** Keys, requests and certificates told apart by how long they are; every chain verifies. */
  function ByLength(): Crypto {
    var shortest := |CertificateText(0)|;
    Crypto((b: Text) => if |b| >= shortest then Some(|b| - shortest) else None, (x: X509) => x, (x: X509) => false,
           (leaf: X509, between: seq<X509>, issuers: seq<X509>, role: Role) => true,
           (key: Text) => Some(|key|), (csr: Text) => Some(|csr|))
  }

  function ByLengthTools(): Tools {
    Tools(ByLength().certificate, (x: X509) => CertificateText(x), (x: X509) => false, (i: X509, x: X509) => true)
  }

  lemma CertificateTextLength(x: X509)
    ensures |CertificateText(x)| == |CertificateText(0)| + x
  {
  }

  lemma CertificateTextParses(x: X509)
    ensures ParseCertificates(ByLength(), CertificateText(x)) == Some([x])
  {
    hide ParseBlocks, Pem.SplitBlocks, Pem.MakeBlock, CertificateText;
    var m, block := Pem.MarksOf("CERTIFICATE"), CertificateText(x);
    CertificateTextSplits(x);
    CertificateTextLength(x);
    OneBlock(ByLength(), block, x);
  }

  lemma OneBlock(c: Crypto, block: Text, x: X509)
    requires c.certificate(block) == Some(x)
    ensures ParseBlocks(c, [block]) == Some([x])
  {
    var none: seq<X509> := [];
    assert ParseBlocks(c, [block][1..]) == Some(none);
    assert [x] + none == [x];
  }

  /** A body without hyphens is good. */
  lemma NoHyphenIsGood(m: Pem.Marks, body: Text)
    requires m.Standard() && '-' !in body
    ensures Pem.GoodBody(m, body)
  {
    FindIsFirst(body + m.end, m.end, 0, |body|);
    forall k | 0 <= k < |body|
      ensures !OccursAt(body + m.end, m.end, k)
    {
      assert (body + m.end)[k + 0] == body[k] != m.end[0];
    }
  }

  lemma CertificateTextSplits(x: X509)
    ensures Pem.SplitBlocks(CertificateText(x), Pem.MarksOf("CERTIFICATE"), 0) == Ok([CertificateText(x)])
  {
    hide Pem.SplitBlocks, Pem.MakeBlock;
    var m, body, block := Pem.MarksOf("CERTIFICATE"), "\n" + seq(x, _ => 'A') + "\n", CertificateText(x);
    NoHyphenIsGood(m, body);
    var none: Text, gaps: seq<Text> := [], [[], []];
    Pem.SplitReturnsWrittenBlocks(m, [body], gaps, [block]);
    assert Pem.Interleave(gaps, [block]) == block by {
      var noBlocks: seq<Text> := [];
      assert gaps[1..] == [none] && [block][1..] == noBlocks;
      assert Pem.Interleave(gaps[1..], [block][1..]) == none;
      assert none + block + none == block;
    }
  }

  /** Request, import of the answer, start, a new key and request, the new certificate, an activation whose promotion
      fails, GENERATE_CSR_FILE again, and a stop. */
  function LosingActions(l: Layout): seq<Action> {
    [Start(EVERYTHING_SUCCEEDS, FIRST_KEY, FIRST_KEY, ZIP_FILE),
     Stop,
     ImportResponse(Response([CertificateText(1)], [CertificateText(9)]), 3),
     Start(EVERYTHING_SUCCEEDS, LAST_KEY, LAST_KEY, ZIP_FILE),
     GenerateCsr(NEXT_KEY, NEXT_KEY, EVERYTHING_SUCCEEDS),
     WriteFileObject(l.operationalInstance, 0, CertificateText(2)),
     Activate(PROMOTION_FAILS),
     GenerateCsr(LAST_KEY, LAST_KEY, EVERYTHING_SUCCEEDS),
     Stop]
  }

  lemma {:induction false} RunSnoc(c: Crypto, t: Tools, l: Layout, zip: Path, h: Hub, actions: seq<Action>, a: Action)
    requires l.Acyclic() && |l.issuerInstances| == 2
    requires var g := Run(c, t, l, zip, h, actions); g.Running? ==> g.s.staged.Keys <= l.paths.Keys
    ensures var g := Run(c, t, l, zip, h, actions);
            Run(c, t, l, zip, h, actions + [a]) == Step(c, t, l, zip, g, a) &&
            (CarefulRun(c, t, l, zip, h, actions) && Careful(c, l, g, a) ==>
             CarefulRun(c, t, l, zip, h, actions + [a]))
    decreases |actions|
  {
    hide Step, Careful;
    if actions == [] {
      assert ([] + [a])[1..] == actions;
    } else {
      assert (actions + [a])[1..] == actions[1..] + [a];
      RunSnoc(c, t, l, zip, Step(c, t, l, zip, h, actions[0]), actions[1..], a);
    }
  }

  /** The hub with a certificate for key 1 imported and running again. */
  ghost predicate Imported(l: Layout, h: Hub) {
    h.Running? && h.s.staged == map[] && l.pendingPrivateKeyPath !in h.s.disk &&
    FileHolds(h.s.disk, l.privateKeyPath, FIRST_KEY) && FileHolds(h.s.disk, CsrPath(l), FIRST_KEY) &&
    FileHolds(h.s.disk, OperationalPath(l), CertificateText(1)) && IssuersHeld(l, h.s.disk)
  }

  ghost predicate IssuersHeld(l: Layout, disk: Disk) {
    forall i :: i in l.issuerInstances ==> FileHolds(disk, OwnPath(l, i), CertificateText(9))
  }

  function FirstDisk(l: Layout, zip: Path): Disk {
    map[l.privateKeyPath := FIRST_KEY, CsrPath(l) := FIRST_KEY, zip := ZIP_FILE]
  }

  lemma FirstStart(l: Layout, zip: Path)
    requires HubLayout(l, zip)
    ensures StartStep(ByLength(), l, zip, map[], LosingActions(l)[0]) == Running(Store(FirstDisk(l, zip), map[], false))
  {
    hide OperationalOnDisk, CertificateText;
    FilesApart(l, zip);
  }

  /** A start with nothing to do. */
  lemma QuietStart(l: Layout, zip: Path, disk: Disk)
    requires HubLayout(l, zip) && l.pendingPrivateKeyPath !in disk && zip in disk
    ensures StartStep(ByLength(), l, zip, disk, LosingActions(l)[3]) == Running(Store(disk, map[], false))
  {
    hide OperationalOnDisk, CertificateText;
  }

  lemma ThreeWritten(l: Layout, zip: Path, x: Text, issuer: Text)
    requires HubLayout(l, zip)
    ensures var d1 := FirstDisk(l, zip)[OperationalPath(l) := x];
            var d2 := d1[OwnPath(l, l.issuerInstances[0]) := issuer];
            var d3 := d2[OwnPath(l, l.issuerInstances[1]) := issuer];
            l.pendingPrivateKeyPath !in d3 && zip in d3 && FileHolds(d3, l.privateKeyPath, FIRST_KEY) &&
            FileHolds(d3, CsrPath(l), FIRST_KEY) && FileHolds(d3, OperationalPath(l), x) &&
            forall i :: i in l.issuerInstances ==> FileHolds(d3, OwnPath(l, i), issuer)
  {
    FilesApart(l, zip);
    assert l.issuerInstances[0] in l.issuerInstances && l.issuerInstances[1] in l.issuerInstances;
    assert forall i :: i in l.issuerInstances ==> i == l.issuerInstances[0] || i == l.issuerInstances[1];
  }

  lemma ResponseIsRead(response: Response)
    requires response == Response([CertificateText(1)], [CertificateText(9)])
    ensures ReadResponse(ByLength(), ByLengthTools(), response, 1) == Some((1, [9]))
  {
    hide CertificateText;
    CertificateTextLength(1);
    CertificateTextLength(9);
    var none: seq<Text>, noIssuer: seq<X509> := [], [];
    assert response.issuers[1..] == none && [9] + noIssuer == [9];
    assert ParseIssuers(ByLengthTools(), none) == Some(noIssuer);
    assert ParseIssuers(ByLengthTools(), response.issuers) == Some([9]);
  }

  lemma ImportWrites(l: Layout, zip: Path)
    requires HubLayout(l, zip)
    ensures var response := Response([CertificateText(1)], [CertificateText(9)]);
            var disk := Import(ByLength(), ByLengthTools(), l, FirstDisk(l, zip), response, 3);
            zip in disk && Imported(l, Running(Store(disk, map[], false)))
  {
    assert |l.issuerInstances| == 2;
    hide ReadResponse, CertificateText, HubLayout;
    FirstRequest(l, zip);
    ResponseIsRead(Response([CertificateText(1)], [CertificateText(9)]));
    ThreeWritten(l, zip, CertificateText(1), CertificateText(9));
  }

  lemma FirstRequest(l: Layout, zip: Path)
    requires HubLayout(l, zip)
    ensures CsrKey(ByLength(), l, FirstDisk(l, zip)) == Some(1)
  {
    FilesApart(l, zip);
  }

  /** GENERATE_CSR_FILE then puts a pending key for the next certificate beside it. */
  lemma Generates(l: Layout, zip: Path, h: Hub)
    requires HubLayout(l, zip) && Imported(l, h)
    ensures Careful(ByLength(), l, h, LosingActions(l)[4])
    ensures var g := After(Generate(ByLength(), l, h.s, NEXT_KEY, NEXT_KEY, EVERYTHING_SUCCEEDS));
            g.Running? && g.s.staged == map[] && WithPendingKey(l, g.s.disk)
  {
    hide CertificateText, Generate, KeyReplaced, ParseCertificates, Effective;
    CertificateTextParses(1);
    KeyIsReplaced(l, zip, h.s);
    GenerateEffect(ByLength(), l, zip, h.s, NEXT_KEY, NEXT_KEY, EVERYTHING_SUCCEEDS);
    GenerateKeepsIssuers(l, zip, h.s);
  }

  lemma KeyIsReplaced(l: Layout, zip: Path, s: Store)
    requires HubLayout(l, zip) && s.staged == map[] && FileHolds(s.disk, OperationalPath(l), CertificateText(1))
    ensures KeyReplaced(ByLength(), l, s, EVERYTHING_SUCCEEDS)
  {
    hide ParseCertificates, CertificateText, ByLength;
    CertificateTextParses(1);
    OwnFileIsRead(l, s, l.operationalInstance, CertificateText(1));
  }

  ghost predicate WithPendingKey(l: Layout, disk: Disk) {
    FileHolds(disk, l.privateKeyPath, FIRST_KEY) && FileHolds(disk, l.pendingPrivateKeyPath, NEXT_KEY) &&
    FileHolds(disk, CsrPath(l), NEXT_KEY) &&
    FileHolds(disk, OperationalPath(l), CertificateText(1)) && IssuersHeld(l, disk)
  }

  lemma OwnFileIsRead(l: Layout, s: Store, i: nat, bytes: Text)
    requires l.WellFormed() && i in l.paths && i !in s.staged && FileHolds(s.disk, OwnPath(l, i), bytes)
    ensures Read(l, s, i) == Some(bytes) && Effective(l, s, i) == bytes
  {
  }

  lemma GenerateKeepsIssuers(l: Layout, zip: Path, s: Store)
    requires HubLayout(l, zip) && IssuersHeld(l, s.disk)
    ensures IssuersHeld(l, Generate(ByLength(), l, s, NEXT_KEY, NEXT_KEY, EVERYTHING_SUCCEEDS).0.disk)
  {
    hide ParseCertificates, Effective, ReplaceBoth, CertificateText;
    IssuersApart(l, zip);
    var issuers := set i | i in l.issuerInstances :: OwnPath(l, i);
    var key, csr := l.pendingPrivateKeyPath, CsrPath(l);
    ReplaceBothEffect(s.disk, key, NEXT_KEY, csr, NEXT_KEY, EVERYTHING_SUCCEEDS, issuers);
    forall i | i in l.issuerInstances
      ensures OwnPath(l, i) in issuers
    {
    }
  }

  lemma IssuersApart(l: Layout, zip: Path)
    requires HubLayout(l, zip)
    ensures var key, csr := l.pendingPrivateKeyPath, CsrPath(l);
            key != csr && Tmp(key) != Tmp(csr) && Tmp(key) !in {key, csr} && Tmp(csr) !in {key, csr} &&
            forall i :: i in l.issuerInstances ==> OwnPath(l, i) !in {key, csr, Tmp(key), Tmp(csr)}
  {
    FilesApart(l, zip);
    forall i | i in l.issuerInstances
      ensures OwnPath(l, i) !in {Tmp(l.pendingPrivateKeyPath), Tmp(CsrPath(l))}
    {
      assert OwnPath(l, i) in l.paths.Values && CsrPath(l) in l.paths.Values;
    }
  }

  /** The new certificate is written over the old one. */
  lemma WritesNewCertificate(l: Layout, s: Store)
    requires l.WellFormed() && l.operationalInstance in l.paths && s.staged == map[]
    requires FileHolds(s.disk, OperationalPath(l), CertificateText(1))
    ensures CertFiles.Write(l, s, l.operationalInstance, 0, CertificateText(2)) ==
            (s.(staged := map[l.operationalInstance := CertificateText(2)]), Ok(0))
  {
    CertificateTextLength(1);
    CertificateTextLength(2);
    assert |CertificateText(2)| <= MAX_FILE_BYTES;
    hide CertificateText;
    OwnFileIsRead(l, s, l.operationalInstance, CertificateText(1));
    WriteOver(l, s, l.operationalInstance, CertificateText(1), CertificateText(2));
  }

  lemma WriteOver(l: Layout, s: Store, i: nat, bytes: Text, longer: Text)
    requires l.Acyclic() && i in l.paths && s.staged == map[] && Effective(l, s, i) == bytes
    requires |bytes| <= |longer| <= MAX_FILE_BYTES
    ensures CertFiles.Write(l, s, i, 0, longer) == (s.(staged := map[i := longer]), Ok(0))
  {
    hide Effective;
    assert Overwrite(bytes, 0, longer) == longer;
    assert s.staged[i := bytes][i := longer] == map[i := longer];
  }

  /** It passes the validation, which asks for the pending key. */
  lemma NewCertificateIsValid(l: Layout, zip: Path, s: Store)
    requires HubLayout(l, zip) && s.staged == map[l.operationalInstance := CertificateText(2)]
    requires WithPendingKey(l, s.disk)
    ensures Validate(ByLength(), l, s) == (s.(promotes := true), None)
  {
    hide CertificateText, ParseCertificates, Effective;
    CertificateTextParses(2);
    StagedIsEffective(l, s, l.operationalInstance);
    IssuersParse(l, zip, s);
  }

  lemma StagedIsEffective(l: Layout, s: Store, i: nat)
    requires l.Acyclic() && i in s.staged
    ensures Effective(l, s, i) == s.staged[i]
  {
    assert Read(l, s, i) == Some(s.staged[i]);
  }

  lemma IssuersParse(l: Layout, zip: Path, s: Store)
    requires HubLayout(l, zip) && IssuersHeld(l, s.disk) && forall i :: i in l.issuerInstances ==> i !in s.staged
    ensures IssuersOf(ByLength(), l, s, l.issuerInstances) == Some([9, 9])
  {
    hide CertificateText, ParseCertificates, ByLength, Effective;
    CertificateTextParses(9);
    var i, j := l.issuerInstances[0], l.issuerInstances[1];
    assert l.issuerInstances == [i, j] && i in l.issuerInstances && j in l.issuerInstances;
    OwnFileIsRead(l, s, i, CertificateText(9));
    OwnFileIsRead(l, s, j, CertificateText(9));
    var none: seq<X509> := [];
    assert IssuersOf(ByLength(), l, s, []) == Some(none);
    assert [i, j][1..] == [j] && [j][1..] == [];
    assert IssuersOf(ByLength(), l, s, [j]) == Some([9]) by { assert [9] + none == [9]; }
    assert IssuersOf(ByLength(), l, s, [i, j]) == Some([9] + [9]);
    assert [9] + [9] == [9, 9];
  }

  /** The first `k` of these actions take an empty folder to `g`. */
  ghost predicate RunsTo(l: Layout, zip: Path, k: nat, g: Hub) {
    l.Acyclic() && |l.issuerInstances| == 2 && k <= |LosingActions(l)| &&
    Run(ByLength(), ByLengthTools(), l, zip, Stopped(map[]), LosingActions(l)[..k]) == g
  }

  /** And they are careful. */
  ghost predicate Reaches(l: Layout, zip: Path, k: nat, g: Hub) {
    RunsTo(l, zip, k, g) && CarefulRun(ByLength(), ByLengthTools(), l, zip, Stopped(map[]), LosingActions(l)[..k])
  }

  /** One action further. */
  lemma Extend(l: Layout, zip: Path, k: nat, g: Hub, a: Action)
    requires k < |LosingActions(l)| && LosingActions(l)[k] == a && RunsTo(l, zip, k, g)
    requires g.Running? ==> g.s.staged.Keys <= l.paths.Keys
    ensures var h := Step(ByLength(), ByLengthTools(), l, zip, g, a);
            RunsTo(l, zip, k + 1, h) &&
            (Reaches(l, zip, k, g) && Careful(ByLength(), l, g, a) ==> Reaches(l, zip, k + 1, h))
  {
    hide Step, Careful, Run, CarefulRun, LosingActions;
    var actions := LosingActions(l);
    assert actions[..k + 1] == actions[..k] + [a];
    RunSnoc(ByLength(), ByLengthTools(), l, zip, Stopped(map[]), actions[..k], a);
  }

  lemma Starts(l: Layout, zip: Path)
    requires HubLayout(l, zip)
    ensures Reaches(l, zip, 1, Running(Store(FirstDisk(l, zip), map[], false)))
  {
    hide CertificateText, StartStep, FirstDisk;
    FirstStart(l, zip);
    assert LosingActions(l)[..0] == [];
    Extend(l, zip, 0, Stopped(map[]), LosingActions(l)[0]);
  }

  lemma Stops(l: Layout, zip: Path, k: nat, g: Hub)
    requires RunsTo(l, zip, k, g) && k < |LosingActions(l)| && LosingActions(l)[k] == Stop
    requires g.Running? ==> g.s.staged == map[]
    ensures RunsTo(l, zip, k + 1, Stopped(g.Disk()))
    ensures Reaches(l, zip, k, g) ==> Reaches(l, zip, k + 1, Stopped(g.Disk()))
  {
    hide LosingActions, Run, CarefulRun;
    Extend(l, zip, k, g, Stop);
  }

  lemma ImportsAndStarts(l: Layout, zip: Path) returns (s: Store)
    requires HubLayout(l, zip) && Reaches(l, zip, 2, Stopped(FirstDisk(l, zip)))
    ensures Reaches(l, zip, 4, Running(s)) && Imported(l, Running(s))
  {
    hide CertificateText, StartStep, Import, FirstDisk, Run, CarefulRun;
    ImportWrites(l, zip);
    Extend(l, zip, 2, Stopped(FirstDisk(l, zip)), LosingActions(l)[2]);
    var disk := Import(ByLength(), ByLengthTools(), l, FirstDisk(l, zip), LosingActions(l)[2].response, 3);
    QuietStart(l, zip, disk);
    Extend(l, zip, 3, Stopped(disk), LosingActions(l)[3]);
    s := Store(disk, map[], false);
  }

  lemma GeneratesPending(l: Layout, zip: Path, s: Store) returns (g: Store)
    requires HubLayout(l, zip) && Reaches(l, zip, 4, Running(s)) && Imported(l, Running(s))
    ensures Reaches(l, zip, 5, Running(g)) && WithPendingKey(l, g.disk) && g.staged == map[]
  {
    hide CertificateText, Generate, Run, CarefulRun, CertFiles.Write, WithPendingKey;
    Generates(l, zip, Running(s));
    Extend(l, zip, 4, Running(s), LosingActions(l)[4]);
    g := Generate(ByLength(), l, s, NEXT_KEY, NEXT_KEY, EVERYTHING_SUCCEEDS).0;
  }

  lemma WritesNext(l: Layout, zip: Path, s: Store) returns (g: Store)
    requires HubLayout(l, zip) && Reaches(l, zip, 5, Running(s)) && WithPendingKey(l, s.disk) && s.staged == map[]
    ensures Reaches(l, zip, 6, Running(g)) && WithPendingKey(l, g.disk)
    ensures g.staged == map[l.operationalInstance := CertificateText(2)]
  {
    hide CertificateText, Generate, Run, CarefulRun, CertFiles.Write, IssuersHeld;
    WritesNewCertificate(l, s);
    Extend(l, zip, 5, Running(s), LosingActions(l)[5]);
    g := s.(staged := map[l.operationalInstance := CertificateText(2)]);
  }

  /** What GenerateAfterFailedPromotion asks for. */
  ghost predicate AboutToLose(l: Layout, s: Store)
    requires l.Acyclic()
  {
    HubInv(ByLength(), l, Running(s)) && l.operationalInstance in s.staged && s.staged.Keys <= l.paths.Keys &&
    Validate(ByLength(), l, s).1 == None && Validate(ByLength(), l, s).0.promotes &&
    KeyAt(ByLength(), s.disk, l.privateKeyPath) != KeyAt(ByLength(), s.disk, l.pendingPrivateKeyPath) &&
    Renamed(l, s.(promotes := true), PROMOTION_FAILS).1 == Done(true) && GeneratedPair(ByLength(), LAST_KEY, LAST_KEY) &&
    ByLength().privateKey(LAST_KEY) != KeyAt(ByLength(), s.disk, l.pendingPrivateKeyPath)
  }

  /** The hub just before the activation meets it. */
  lemma ReadyToLose(l: Layout, zip: Path, s: Store)
    requires HubLayout(l, zip) && WithPendingKey(l, s.disk)
    requires s.staged == map[l.operationalInstance := CertificateText(2)]
    ensures AboutToLose(l, s)
  {
    hide CertificateText, ParseCertificates, IssuersHeld, Renamed, Validate;
    CertificateTextParses(1);
    NewCertificateIsValid(l, zip, s);
    RenamedIff(l, s.(promotes := true), PROMOTION_FAILS);
  }

  /** The activation and what comes after it. */
  lemma Loses(l: Layout, zip: Path, s: Store, a: Action) returns (h: Hub)
    requires HubLayout(l, zip) && Reaches(l, zip, 6, Running(s)) && WithPendingKey(l, s.disk) && a.Start?
    requires s.staged == map[l.operationalInstance := CertificateText(2)]
    ensures Reaches(l, zip, 7, h) && h.Running? && h.s.staged == map[]
    ensures var g := Step(ByLength(), ByLengthTools(), l, zip, h, GenerateCsr(LAST_KEY, LAST_KEY, EVERYTHING_SUCCEEDS));
            Lost(ByLength(), l, g)
  {
    var c, t := ByLength(), ByLengthTools();
    ReadyToLose(l, zip, s);
    LastActions(l);
    assert l.Acyclic() && |l.issuerInstances| == 2;
    hide CertificateText, Run, CarefulRun, ParseCertificates, Validate, Renamed, HubInv, KeyReplaced, Step, HubLayout,
      WithPendingKey, ByLength, ByLengthTools, KeyAt, GeneratedPair, CsrPath, LosingActions, Lost, NoMatchAfter,
      BringsNothingRun;
    GenerateAfterFailedPromotion(c, t, l, zip, s, PROMOTION_FAILS, LAST_KEY, LAST_KEY, EVERYTHING_SUCCEEDS, [], a);
    h := Step(c, t, l, zip, Running(s), Activate(PROMOTION_FAILS));
    Extend(l, zip, 6, Running(s), Activate(PROMOTION_FAILS));
  }

  lemma ByLengthIsLawful()
    ensures PemLaw(ByLength(), ByLengthTools())
  {
    forall x: X509
      ensures ParseCertificates(ByLength(), ByLengthTools().pemOf(x)) == Some([x])
    {
      CertificateTextParses(x);
    }
  }

  /** In every layout of the hub, with keys and certificates that differ only in their length: from an empty folder,
      through a run in which everything but its last GENERATE_CSR_FILE is careful, to a stopped hub whose pair is lost,
      for every restart and every run that brings neither another certificate nor its key. */
  lemma PairCanBeLost(l: Layout, zip: Path, more: seq<Action>, a: Action)
    requires HubLayout(l, zip) && a.Start?
    ensures PemLaw(ByLength(), ByLengthTools())
    ensures var c, t, actions := ByLength(), ByLengthTools(), LosingActions(l);
            CarefulRun(c, t, l, zip, Stopped(map[]), actions[..7]) &&
            var h := Run(c, t, l, zip, Stopped(map[]), actions);
            h.Stopped? && LostFor(c, t, l, zip, h, more, a)
  {
    assert l.Acyclic() && |l.issuerInstances| == 2;
    ByLengthIsLawful();
    hide Run, CarefulRun, HubLayout, PemLaw, LosingActions, Lost, LostFor, ByLength, ByLengthTools;
    var h, g := ReachesLoss(l, zip, a);
    LastActions(l);
    assert LosingActions(l)[..9] == LosingActions(l);
    LostIsLostFor(ByLength(), ByLengthTools(), l, zip, g, more, a);
  }

  /** Up to the new certificate, staged beside its pending key. */
  lemma ReachesWritten(l: Layout, zip: Path) returns (s: Store)
    requires HubLayout(l, zip)
    ensures Reaches(l, zip, 6, Running(s)) && WithPendingKey(l, s.disk)
    ensures s.staged == map[l.operationalInstance := CertificateText(2)]
  {
    assert |LosingActions(l)| == 9 && LosingActions(l)[1] == Stop;
    Starts(l, zip);
    hide CertificateText, Run, CarefulRun, LosingActions, WithPendingKey, Imported, HubLayout, ByLength, ByLengthTools,
      FirstDisk;
    Stops(l, zip, 1, Running(Store(FirstDisk(l, zip), map[], false)));
    s := ImportsAndStarts(l, zip);
    s := GeneratesPending(l, zip, s);
    s := WritesNext(l, zip, s);
  }

  lemma ReachesLoss(l: Layout, zip: Path, a: Action) returns (h: Hub, g: Hub)
    requires HubLayout(l, zip) && a.Start?
    ensures Reaches(l, zip, 7, h) && RunsTo(l, zip, 9, g) && g.Stopped?
    ensures Lost(ByLength(), l, g)
  {
    assert l.Acyclic() && |l.issuerInstances| == 2;
    hide CertificateText, RunsTo, CarefulRun, CertOk, Step, WithPendingKey, HubLayout, ByLength, ByLengthTools;
    var s := ReachesWritten(l, zip);
    h := Loses(l, zip, s, a);
    LastTwo(l, zip, h);
    g := Stopped(Step(ByLength(), ByLengthTools(), l, zip, h,
                      GenerateCsr(LAST_KEY, LAST_KEY, EVERYTHING_SUCCEEDS)).Disk());
  }

  lemma LastActions(l: Layout)
    ensures var actions := LosingActions(l);
            |actions| == 9 && actions[6] == Activate(PROMOTION_FAILS) &&
            actions[7] == GenerateCsr(LAST_KEY, LAST_KEY, EVERYTHING_SUCCEEDS) && actions[8] == Stop
  {
    hide CertificateText;
  }

  lemma LastTwo(l: Layout, zip: Path, h: Hub)
    requires HubLayout(l, zip) && RunsTo(l, zip, 7, h) && h.Running? && h.s.staged == map[]
    ensures var g := Step(ByLength(), ByLengthTools(), l, zip, h, GenerateCsr(LAST_KEY, LAST_KEY, EVERYTHING_SUCCEEDS));
            RunsTo(l, zip, 9, Stopped(g.Disk()))
  {
    hide CertificateText, RunsTo, Step, LosingActions, ByLength, ByLengthTools;
    var a := GenerateCsr(LAST_KEY, LAST_KEY, EVERYTHING_SUCCEEDS);
    LastActions(l);
    GenerateStagesNothing(l, zip, h, LAST_KEY, LAST_KEY);
    Extend(l, zip, 7, h, a);
    Stops(l, zip, 8, Step(ByLength(), ByLengthTools(), l, zip, h, a));
  }

  lemma GenerateStagesNothing(l: Layout, zip: Path, h: Hub, keyPem: Text, csrPem: Text)
    requires HubLayout(l, zip) && h.Running? && h.s.staged == map[]
    ensures var g := Step(ByLength(), ByLengthTools(), l, zip, h, GenerateCsr(keyPem, csrPem, EVERYTHING_SUCCEEDS));
            g.Running? ==> g.s.staged == map[]
  {
    hide Generate;
    GenerateEffect(ByLength(), l, zip, h.s, keyPem, csrPem, EVERYTHING_SUCCEEDS);
  }
}
