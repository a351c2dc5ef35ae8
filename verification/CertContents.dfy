/** What a File object reads as, octet by octet, after a write, a resize and a discard, and through fallbacks
    (cert_store.cpp and main.cpp's file callbacks). */
module CertContents {
  import opened Octets
  import opened CertFiles
  import opened CertCommit
  import opened CertPaths

  // ---- Fallbacks ----------------------------------------------------------

  predicate FallsBackTo(l: Layout, i: nat, j: nat) {
    i in l.paths && i in l.readFallbackInstances && l.readFallbackInstances[i] == j != 0
  }

  /** Each File object of `js` falls back to the next. */
  ghost predicate Chain(l: Layout, js: seq<nat>) {
    js != [] && forall j, k :: 0 <= j < k < |js| && k == j + 1 ==> FallsBackTo(l, js[j], js[k])
  }

  /** A File object with nothing of its own reads as the one it falls back to, and so on; the first that holds something
      is what is read, and nothing is read when the last one holds nothing and has no fallback. */
  lemma {:induction false} ReadAlongChain(l: Layout, s: Store, js: seq<nat>)
    requires l.WellFormed() && s.staged.Keys <= l.paths.Keys && Chain(l, js)
    requires forall k :: 0 <= k < |js| - 1 ==> View(l, s, js[k]).None?
    ensures Read(l, s, js[0]) == Read(l, s, js[|js| - 1])
    ensures var last := js[|js| - 1];
            (View(l, s, last).Some? ==> Read(l, s, js[0]) == View(l, s, last)) &&
            (View(l, s, last).None? && (last in l.readFallbackInstances ==> l.readFallbackInstances[last] == 0) ==>
               Read(l, s, js[0]) == None)
    decreases |js|
  {
    if |js| > 1 {
      assert View(l, s, js[0]).None? && FallsBackTo(l, js[0], js[1]);
      assert l.paths[js[0]] in l.paths.Values;
      ReadAlongChain(l, s, js[1..]);
    }
  }

  /** So the hub's second issuer slot serves the first one's certificate while it has none of its own. */
  lemma SecondSlotReadsAsFirst(dir: Text, port: Text, s: Store)
    requires s.staged.Keys <= HubPaths(dir, port).paths.Keys
    ensures var l := HubPaths(dir, port);
            l.WellFormed() &&
            Read(l, s, ISSUER_CERT_2) == if View(l, s, ISSUER_CERT_2).Some? then View(l, s, ISSUER_CERT_2)
                                         else View(l, s, ISSUER_CERT_1)
    ensures var l := HubPaths(dir, port);
            forall i :: i in {OPERATIONAL_CERT, CSR, ISSUER_CERT_1} ==> Read(l, s, i) == View(l, s, i)
  {
    var l := HubPaths(dir, port);
    HubPathsAreHubLayout(dir, port);
    HubFallbacks(dir, port);
    hide HubPaths;
    forall i | i in {OPERATIONAL_CERT, CSR, ISSUER_CERT_1}
      ensures Read(l, s, i) == View(l, s, i)
    {
      ReadAlongChain(l, s, [i]);
    }
    ReadAlongChain(l, s, [ISSUER_CERT_2]);
    if View(l, s, ISSUER_CERT_2).None? {
      ReadAlongChain(l, s, [ISSUER_CERT_2, ISSUER_CERT_1]);
    }
  }

  lemma HubFallbacks(dir: Text, port: Text)
    ensures var l := HubPaths(dir, port);
            l.readFallbackInstances == map[ISSUER_CERT_2 := ISSUER_CERT_1] && ISSUER_CERT_2 in l.paths
  {
  }

  // ---- Writing ------------------------------------------------------------

  /** The contents after `data` was written at `at`: what was written stands there, and around it what was there. */
  predicate WrittenOver(now: Text, was: Text, at: nat, data: Text) {
    at <= |was| && |now| == (if at + |data| > |was| then at + |data| else |was|) &&
    (forall k :: 0 <= k < |data| ==> now[at + k] == data[k]) &&
    forall k :: 0 <= k < |was| && (k < at || at + |data| <= k) ==> now[k] == was[k]
  }

  /** `now` is `was` cut or filled up with zeros. */
  predicate Resized(now: Text, was: Text, newSize: nat) {
    |now| == newSize && (forall k :: 0 <= k < newSize && k < |was| ==> now[k] == was[k]) &&
    forall k :: |was| <= k < newSize ==> now[k] == '\0'
  }

  /** No other File object's own contents have changed, nor the disk, nor what the next commit promotes. */
  ghost predicate OnlyStages(l: Layout, s: Store, t: Store, i: nat) {
    t.disk == s.disk && t.promotes == s.promotes && t.staged.Keys <= s.staged.Keys + {i} &&
    forall j :: j != i ==> View(l, t, j) == View(l, s, j)
  }

  /** AtomicWriteFile: which writes are refused and why, where the others go, and the contents they leave. */
  lemma WriteIs(l: Layout, s: Store, i: nat, fileStart: int, data: Text)
    requires l.WellFormed() && i in l.paths
    ensures var was := Effective(l, s, i);
            var at := if fileStart == -1 then |was| else fileStart;
            var (t, r) := CertFiles.Write(l, s, i, fileStart, data);
            (r == Err(InvalidFileStartPosition) <==> at < 0 || at > |was|) &&
            (r == Err(FileFull) <==> 0 <= at <= |was| && at + |data| > 65536) &&
            (r.Ok? <==> 0 <= at <= |was| && at + |data| <= 65536) &&
            (r.Ok? ==> r.value == at && Read(l, t, i).Some? && WrittenOver(Read(l, t, i).value, was, at, data)) &&
            OnlyStages(l, s, t, i)
  {
    hide Effective, Overwrite, WrittenOver, Read, Stage, OnlyStages;
    StageIs(l, s, i);
    var was := Effective(l, s, i);
    var at := if fileStart == -1 then |was| else fileStart;
    if 0 <= at <= |was| {
      OverwriteIs(was, at, data);
    }
    var (t, r) := CertFiles.Write(l, s, i, fileStart, data);
    StagedIsRead(l, t, i);
    StagesOnly(l, s, i, t.staged[i]);
    assert t.staged == s.staged[i := t.staged[i]];
  }

  lemma StagesOnly(l: Layout, s: Store, i: nat, bytes: Text)
    ensures OnlyStages(l, s, s.(staged := s.staged[i := bytes]), i)
  {
  }

  lemma OverwriteIs(was: Text, at: nat, data: Text)
    requires at <= |was|
    ensures WrittenOver(Overwrite(was, at, data), was, at, data)
  {
  }

  /** What is staged on the first write is what the File object reads as. */
  lemma StageIs(l: Layout, s: Store, i: nat)
    requires l.Acyclic() && i in l.paths
    ensures var t := Stage(l, s, i);
            t == s.(staged := s.staged[i := Effective(l, s, i)]) && t.staged.Keys == s.staged.Keys + {i}
  {
  }

  lemma StagedIsRead(l: Layout, s: Store, i: nat)
    requires l.Acyclic() && i in s.staged
    ensures Read(l, s, i) == Some(s.staged[i])
  {
  }

  /** WriteProperty File_Size. */
  lemma ResizeIs(l: Layout, s: Store, i: nat, newSize: nat)
    requires l.WellFormed() && i in l.paths
    ensures var (t, error) := CertFiles.Resize(l, s, i, newSize);
            (error == None <==> newSize <= 65536) &&
            (error == None ==> Read(l, t, i).Some? && Resized(Read(l, t, i).value, Effective(l, s, i), newSize)) &&
            (error.Some? ==> t == s) && OnlyStages(l, s, t, i)
  {
    hide Effective, Read, Stage, OnlyStages, Resized;
    StageIs(l, s, i);
    if newSize <= 65536 {
      var t := CertFiles.Resize(l, s, i, newSize).0;
      StagedIsRead(l, t, i);
      StagesOnly(l, s, i, t.staged[i]);
      assert t.staged == s.staged[i := t.staged[i]];
      ResizedTo(Effective(l, s, i), newSize);
    } else {
      NothingStaged(l, s, i);
    }
  }

  lemma ResizedTo(was: Text, newSize: nat)
    ensures Resized(if newSize <= |was| then was[..newSize] else was + Zeros(newSize - |was|), was, newSize)
  {
  }

  lemma NothingStaged(l: Layout, s: Store, i: nat)
    ensures OnlyStages(l, s, s, i)
  {
  }

  /** After a discard every File object holds what is in its file, and no promotion is due. */
  lemma DiscardIs(l: Layout, s: Store, i: nat)
    ensures !Discard(s).promotes && Discard(s).disk == s.disk && Discard(s).staged == map[]
    ensures View(l, Discard(s), i) ==
            if i in l.paths && l.paths[i] in s.disk then Some(s.disk[l.paths[i]]) else None
  {
  }
}
