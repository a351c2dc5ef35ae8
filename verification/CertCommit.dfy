/** A commit changes where contents live, never what is read; and what was validated is what then is on disk. */
module CertCommit {
  import opened Octets
  import opened Listing
  import opened CertFiles

  /** The file at `p` is the same in both: absent in both, or there with the same contents. */
  ghost predicate Same(d: Disk, e: Disk, p: Path) {
    (p in d <==> p in e) && (p in d ==> d[p] == e[p])
  }

  ghost predicate FileHolds(disk: Disk, path: Path, bytes: Text) {
    path in disk && disk[path] == bytes
  }

  /** What a File object holds itself, without its fallback. */
  function View(l: Layout, s: Store, i: nat): Option<Text> {
    if i in s.staged then Some(s.staged[i])
    else if i in l.paths && l.paths[i] in s.disk then Some(s.disk[l.paths[i]])
    else None
  }

  lemma TmpIsInjective(p: Path, q: Path)
    requires Tmp(p) == Tmp(q)
    ensures p == q
  {
    assert p == Tmp(p)[..|Tmp(p)| - 4] && q == Tmp(q)[..|Tmp(q)| - 4];
  }

  // ---- Reading is determined by what each File object holds ---------------

  lemma {:induction false} ReadByView(l: Layout, s: Store, t: Store, i: nat)
    requires l.WellFormed() && s.staged.Keys <= l.paths.Keys && t.staged.Keys <= l.paths.Keys
    requires forall j :: View(l, s, j) == View(l, t, j)
    ensures Read(l, s, i) == Read(l, t, i)
    decreases l.Rank(i)
  {
    assert View(l, s, i) == View(l, t, i);
    if View(l, s, i).None? && FallbackInstance(l, s, i) != 0 {
      l.RankFalls(i);
      ReadByView(l, s, t, l.readFallbackInstances[i]);
    }
  }

  // ---- What the two loops of a commit do ----------------------------------

  lemma {:induction false} RemoveTempsKeeps(disk: Disk, paths: seq<Path>, env: Env, p: Path)
    requires forall q :: q in paths ==> p != Tmp(q)
    ensures Same(disk, RemoveTemps(disk, paths, env).0, p)
    decreases |paths|
  {
    if paths != [] {
      assert paths[0] in paths;
      RemoveTempsKeeps(if env.remove(paths[0]).Succeeds? then disk - {Tmp(paths[0])} else disk, paths[1..], env, p);
    }
  }

  lemma RemoveManagedKeeps(l: Layout, disk: Disk, paths: seq<Path>, env: Env)
    requires l.DistinctPaths() && forall p :: p in paths ==> p in l.Managed()
    ensures forall p :: p in l.Managed() ==> Same(disk, RemoveTemps(disk, paths, env).0, p)
  {
    forall p | p in l.Managed()
      ensures Same(disk, RemoveTemps(disk, paths, env).0, p)
    {
      RemoveTempsKeeps(disk, paths, env, p);
    }
  }

  lemma {:induction false} WriteTempsKeeps(l: Layout, s: Store, instances: seq<nat>, written: seq<Path>, disk: Disk, env: Env)
    requires l.DistinctPaths() && forall i :: i in instances ==> i in s.staged
    requires forall p :: p in written ==> p in l.Managed()
    ensures forall p :: p in l.Managed() ==> Same(disk, WriteTemps(l, s, instances, written, disk, env).0, p)
    decreases |instances|
  {
    if instances == [] {
    } else if instances[0] !in l.paths {
      RemoveManagedKeeps(l, disk, written, env);
    } else {
      var path := l.paths[instances[0]];
      assert path in l.Managed();
      var (disk1, wrote) := WriteTemp(disk, path, s.staged[instances[0]], env);
      assert forall p :: p in l.Managed() ==> Same(disk, disk1, p);
      if wrote == Done(true) {
        WriteTempsKeeps(l, s, instances[1..], written + [path], disk1, env);
      } else if wrote == Done(false) {
        RemoveManagedKeeps(l, disk1, written, env);
      }
    }
  }

  lemma {:induction false} WriteTempsOther(l: Layout, s: Store, instances: seq<nat>, written: seq<Path>, disk: Disk,
                                           env: Env, q: Path)
    requires forall i :: i in instances ==> i in s.staged
    requires forall i :: i in instances && i in l.paths ==> q != Tmp(l.paths[i])
    requires WriteTemps(l, s, instances, written, disk, env).1 == Done(true)
    ensures Same(disk, WriteTemps(l, s, instances, written, disk, env).0, q)
    decreases |instances|
  {
    if instances != [] {
      assert instances[0] in instances;
      var path := l.paths[instances[0]];
      WriteTempsOther(l, s, instances[1..], written + [path], disk[Tmp(path) := s.staged[instances[0]]], env, q);
    }
  }

  /** After all were written, each temporary file holds its staged copy. */
  lemma {:induction false} WriteTempsWrites(l: Layout, s: Store, instances: seq<nat>, written: seq<Path>, disk: Disk,
                                            env: Env, i: nat)
    requires l.DistinctPaths() && StrictlyAscending(instances) && forall j :: j in instances ==> j in s.staged
    requires WriteTemps(l, s, instances, written, disk, env).1 == Done(true) && i in instances
    ensures i in l.paths && Tmp(l.paths[i]) in WriteTemps(l, s, instances, written, disk, env).0
    ensures WriteTemps(l, s, instances, written, disk, env).0[Tmp(l.paths[i])] == s.staged[i]
    decreases |instances|
  {
    var first, rest := instances[0], instances[1..];
    var path := l.paths[first];
    var disk1 := disk[Tmp(path) := s.staged[first]];
    if i == first {
      forall j | j in rest && j in l.paths
        ensures Tmp(path) != Tmp(l.paths[j])
      {
        if Tmp(path) == Tmp(l.paths[j]) {
          TmpIsInjective(path, l.paths[j]);
        }
      }
      WriteTempsOther(l, s, rest, written + [path], disk1, env, Tmp(path));
    } else {
      WriteTempsWrites(l, s, rest, written + [path], disk1, env, i);
    }
  }

  /** The file at `p` holds in `e` what its temporary file held in `d`. */
  ghost predicate Moved(d: Disk, e: Disk, p: Path) {
    Tmp(p) in d && p in e && e[p] == d[Tmp(p)]
  }

  lemma {:induction false} RenameTempsOther(paths: seq<Path>, disk: Disk, env: Env, q: Path)
    requires q !in paths && forall p :: p in paths ==> q != Tmp(p)
    ensures Same(disk, RenameTemps(paths, disk, env).0, q)
    decreases |paths|
  {
    if paths != [] {
      assert paths[0] in paths;
      RenameTempsOther(paths[1..], Rename(disk, Tmp(paths[0]), paths[0], env.rename(paths[0])).0, env, q);
    }
  }

  /** A file to be renamed is as it was or moved; if nothing failed, it is moved. */
  lemma {:induction false} RenameTempsHit(l: Layout, paths: seq<Path>, disk: Disk, env: Env, q: Path)
    requires l.DistinctPaths() && (forall p :: p in paths ==> p in l.Managed()) && q in paths
    requires forall i, j :: 0 <= i < j < |paths| ==> paths[i] != paths[j]
    ensures var (disk1, renamed) := RenameTemps(paths, disk, env);
            Moved(disk, disk1, q) || (Same(disk, disk1, q) && renamed != Done(true))
    decreases |paths|
  {
    var p, rest := paths[0], paths[1..];
    var (disk1, renamed) := Rename(disk, Tmp(p), p, env.rename(p));
    if renamed == Done(true) {
      forall r | r in rest
        ensures r in l.Managed() && Tmp(r) != Tmp(p) && Tmp(r) != p
      {
        assert r in l.Managed() && p in l.Managed();
        if Tmp(r) == Tmp(p) {
          TmpIsInjective(r, p);
        }
      }
      if q == p {
        RenameTempsOther(rest, disk1, env, q);
      } else {
        assert q in l.Managed() && p in l.Managed();
        RenameTempsHit(l, rest, disk1, env, q);
      }
    }
  }

  lemma {:induction false} PathsOfFacts(l: Layout, instances: seq<nat>)
    requires l.DistinctPaths() && StrictlyAscending(instances) && forall i :: i in instances ==> i in l.paths
    ensures |PathsOf(l, instances)| == |instances|
    ensures forall k :: 0 <= k < |instances| ==> PathsOf(l, instances)[k] == l.paths[instances[k]]
    ensures forall j, k :: 0 <= j < k < |instances| ==> PathsOf(l, instances)[j] != PathsOf(l, instances)[k]
  {
    if instances != [] {
      PathsOfFacts(l, instances[1..]);
    }
  }

  // ---- A whole commit -----------------------------------------------------

  /** What became of one managed file by the end of the renames. */
  ghost predicate OldOrStaged(l: Layout, s: Store, disk: Disk, i: nat)
    requires i in l.paths
  {
    Same(s.disk, disk, l.paths[i]) || (i in s.staged && l.paths[i] in disk && disk[l.paths[i]] == s.staged[i])
  }

  /** The disk and the outcome when CommitStaged has left its renaming loop, or has not reached its end. */
  function Renamed(l: Layout, s: Store, env: Env): (Disk, Outcome)
    requires s.staged.Keys <= l.paths.Keys
  {
    var instances := Ascending(s.staged.Keys);
    var (disk1, wrote) := WriteTemps(l, s, instances, [], s.disk, env);
    if wrote != Done(true) then (disk1, wrote) else RenameTemps(PathsOf(l, instances), disk1, env)
  }

  lemma RenamedFile(l: Layout, s: Store, env: Env, i: nat)
    requires l.DistinctPaths() && s.staged.Keys <= l.paths.Keys && i in l.paths
    ensures var (disk, renamed) := Renamed(l, s, env);
            OldOrStaged(l, s, disk, i) &&
            (renamed == Done(true) && i in s.staged ==> View(l, Store(disk, map[], false), i) == Some(s.staged[i]))
  {
    hide WriteTemps, RenameTemps, PathsOf, Ascending;
    var instances, path := Ascending(s.staged.Keys), l.paths[i];
    var (disk1, wrote) := WriteTemps(l, s, instances, [], s.disk, env);
    WriteTempsKeeps(l, s, instances, [], s.disk, env);
    assert path in l.Managed();
    if wrote == Done(true) {
      PathsOfFacts(l, instances);
      var paths := PathsOf(l, instances);
      forall p | p in paths
        ensures p in l.Managed() && p in l.paths.Values
      {
        var k :| 0 <= k < |paths| && paths[k] == p;
        assert l.paths[instances[k]] == p;
      }
      if i in s.staged {
        var k :| 0 <= k < |instances| && instances[k] == i;
        assert paths[k] == path;
        RenameTempsHit(l, paths, disk1, env, path);
        WriteTempsWrites(l, s, instances, [], s.disk, env, i);
      } else {
        forall p | p in paths
          ensures p != path
        {
          var k :| 0 <= k < |paths| && paths[k] == p;
          assert instances[k] in s.staged && instances[k] != i;
        }
        RenameTempsOther(paths, disk1, env, path);
      }
    }
  }

  /** The key files are not touched by the renames. */
  lemma RenamedKeys(l: Layout, s: Store, env: Env, q: Path)
    requires l.DistinctPaths() && s.staged.Keys <= l.paths.Keys
    requires q == l.privateKeyPath || q == l.pendingPrivateKeyPath
    ensures Same(s.disk, Renamed(l, s, env).0, q)
  {
    hide WriteTemps, RenameTemps, PathsOf, Ascending;
    var instances := Ascending(s.staged.Keys);
    var (disk1, wrote) := WriteTemps(l, s, instances, [], s.disk, env);
    WriteTempsKeeps(l, s, instances, [], s.disk, env);
    assert q in l.Managed();
    if wrote == Done(true) {
      PathsOfFacts(l, instances);
      var paths := PathsOf(l, instances);
      forall p | p in paths
        ensures q != p && q != Tmp(p)
      {
        var k :| 0 <= k < |paths| && paths[k] == p;
        assert l.paths[instances[k]] == p;
        assert p in l.Managed();
      }
      RenameTempsOther(paths, disk1, env, q);
    }
  }

  /** Commit in terms of its renames: the promotion follows, and only when everything was renamed. */
  lemma CommitSplits(l: Layout, s: Store, env: Env)
    requires s.staged.Keys <= l.paths.Keys
    ensures var (t, o) := Commit(l, s, env); var (disk, renamed) := Renamed(l, s, env);
            if renamed != Done(true) then t == s.(disk := disk) && o == renamed
            else if !s.promotes then t == Store(disk, map[], false) && o == renamed
            else t.staged == map[] && (t.disk, o) == Promote(l, disk, env) && t.promotes == (o != Done(true))
  {
  }

  /** The promotion leaves every File object's file alone. */
  lemma PromoteKeepsFiles(l: Layout, disk: Disk, env: Env, i: nat)
    requires l.DistinctPaths() && i in l.paths
    ensures Same(disk, Promote(l, disk, env).0, l.paths[i])
  {
    assert l.paths[i] in l.paths.Values;
  }

  /** Whatever CommitStaged returns, and wherever a write, a rename or the promotion failed, every File object reads
      as before. */
  lemma CommitKeepsReads(l: Layout, s: Store, env: Env, i: nat)
    requires l.WellFormed() && s.staged.Keys <= l.paths.Keys && Commit(l, s, env).1.Done?
    ensures Read(l, Commit(l, s, env).0, i) == Read(l, s, i)
  {
    var t := Commit(l, s, env).0;
    forall j
      ensures View(l, s, j) == View(l, t, j)
    {
      CommitSplits(l, s, env);
      if j in l.paths {
        RenamedFile(l, s, env, j);
        PromoteKeepsFiles(l, Renamed(l, s, env).0, env, j);
      }
    }
    CommitSplits(l, s, env);
    ReadByView(l, s, t, i);
  }

  // ---- When a commit succeeds ---------------------------------------------

  lemma {:induction false} WriteTempsIff(l: Layout, s: Store, instances: seq<nat>, written: seq<Path>, disk: Disk, env: Env)
    requires forall i :: i in instances ==> i in s.staged && i in l.paths
    ensures WriteTemps(l, s, instances, written, disk, env).1 == Done(true) <==>
            forall i :: i in instances ==> env.write(l.paths[i]).Succeeds?
    decreases |instances|
  {
    if instances != [] {
      var path := l.paths[instances[0]];
      assert instances == [instances[0]] + instances[1..];
      WriteTempsIff(l, s, instances[1..], written + [path], disk[Tmp(path) := s.staged[instances[0]]], env);
    }
  }

  lemma {:induction false} RenameTempsIff(l: Layout, paths: seq<Path>, disk: Disk, env: Env)
    requires l.DistinctPaths() && forall p :: p in paths ==> p in l.Managed() && Tmp(p) in disk
    requires forall i, j :: 0 <= i < j < |paths| ==> paths[i] != paths[j]
    ensures RenameTemps(paths, disk, env).1 == Done(true) <==> forall p :: p in paths ==> env.rename(p).Succeeds?
    decreases |paths|
  {
    if paths != [] {
      var p, rest := paths[0], paths[1..];
      assert paths == [p] + rest;
      forall q | q in rest
        ensures q in l.Managed() && Tmp(q) in Move(disk, Tmp(p), p)
      {
        assert q in l.Managed() && p in l.Managed();
        if Tmp(q) == Tmp(p) {
          TmpIsInjective(q, p);
        }
      }
      RenameTempsIff(l, rest, Move(disk, Tmp(p), p), env);
    }
  }

  /** The file of every staged copy can be written and renamed. */
  ghost predicate FilesSucceed(l: Layout, s: Store, env: Env)
    requires s.staged.Keys <= l.paths.Keys
  {
    forall i :: i in s.staged ==> env.write(l.paths[i]).Succeeds? && env.rename(l.paths[i]).Succeeds?
  }

  /** The loops get to their end exactly when every staged copy can be written and renamed. */
  lemma RenamedIff(l: Layout, s: Store, env: Env)
    requires l.DistinctPaths() && s.staged.Keys <= l.paths.Keys
    ensures Renamed(l, s, env).1 == Done(true) <==> FilesSucceed(l, s, env)
  {
    hide WriteTemps, RenameTemps, PathsOf, Ascending;
    var instances := Ascending(s.staged.Keys);
    assert forall i :: i in s.staged <==> i in instances;
    WriteTempsIff(l, s, instances, [], s.disk, env);
    var (disk1, wrote) := WriteTemps(l, s, instances, [], s.disk, env);
    if wrote == Done(true) {
      PathsOfFacts(l, instances);
      var paths := PathsOf(l, instances);
      forall p | p in paths
        ensures p in l.Managed() && Tmp(p) in disk1
      {
        var k :| 0 <= k < |paths| && paths[k] == p;
        assert l.paths[instances[k]] == p;
        WriteTempsWrites(l, s, instances, [], s.disk, env, instances[k]);
      }
      RenameTempsIff(l, paths, disk1, env);
      forall i | i in instances
        ensures l.paths[i] in paths
      {
        var k :| 0 <= k < |instances| && instances[k] == i;
        assert paths[k] == l.paths[i];
      }
      forall p | p in paths
        ensures exists i :: i in instances && l.paths[i] == p
      {
        var k :| 0 <= k < |paths| && paths[k] == p;
        assert instances[k] in instances && l.paths[instances[k]] == p;
      }
    }
  }

  /** When one write does not succeed, no file but temporary ones has been touched. */
  lemma FailedWriteKeepsFiles(l: Layout, s: Store, env: Env, i: nat)
    requires l.DistinctPaths() && s.staged.Keys <= l.paths.Keys && i in s.staged && !env.write(l.paths[i]).Succeeds?
    ensures forall p :: p in l.Managed() ==> Same(s.disk, Commit(l, s, env).0.disk, p)
  {
    hide WriteTemps, RenameTemps, PathsOf, Ascending;
    var instances := Ascending(s.staged.Keys);
    assert i in instances;
    WriteTempsIff(l, s, instances, [], s.disk, env);
    WriteTempsKeeps(l, s, instances, [], s.disk, env);
  }

  /** A commit succeeds exactly when every file operation it needs does; then every staged copy is on disk, nothing is
      staged, and the pending key has replaced the private one if that was asked for. Short of the promotion, a commit
      that does not succeed keeps the whole stage. */
  lemma CommitIff(l: Layout, s: Store, env: Env)
    requires l.DistinctPaths() && s.staged.Keys <= l.paths.Keys
    ensures var (t, o) := Commit(l, s, env);
            (o == Done(true) <==>
             FilesSucceed(l, s, env) &&
             (s.promotes ==> env.promote.Succeeds? && l.pendingPrivateKeyPath in s.disk)) &&
            (o == Done(true) ==>
               t.staged == map[] && !t.promotes &&
               (forall i :: i in s.staged ==> FileHolds(t.disk, l.paths[i], s.staged[i])) &&
               (s.promotes ==>
                  l.pendingPrivateKeyPath in s.disk && l.pendingPrivateKeyPath !in t.disk &&
                  FileHolds(t.disk, l.privateKeyPath, s.disk[l.pendingPrivateKeyPath])) &&
               (!s.promotes ==>
                  Same(s.disk, t.disk, l.privateKeyPath) && Same(s.disk, t.disk, l.pendingPrivateKeyPath))) &&
            (!FilesSucceed(l, s, env) ==> t == s.(disk := t.disk))
  {
    hide Commit, Renamed;
    CommitSplits(l, s, env);
    RenamedIff(l, s, env);
    RenamedKeys(l, s, env, l.privateKeyPath);
    RenamedKeys(l, s, env, l.pendingPrivateKeyPath);
    var t := Commit(l, s, env).0;
    forall i | i in s.staged && Commit(l, s, env).1 == Done(true)
      ensures FileHolds(t.disk, l.paths[i], s.staged[i])
    {
      RenamedFile(l, s, env, i);
      PromoteKeepsFiles(l, Renamed(l, s, env).0, env, i);
    }
  }

  // ---- What was validated is what is then on disk -------------------------

  lemma {:induction false} IssuersByReads(c: Crypto, l: Layout, s: Store, t: Store, instances: seq<nat>)
    requires l.Acyclic() && forall i :: Read(l, s, i) == Read(l, t, i)
    ensures IssuersOf(c, l, s, instances) == IssuersOf(c, l, t, instances)
  {
    if instances != [] {
      assert Read(l, s, instances[0]) == Read(l, t, instances[0]);
      IssuersByReads(c, l, s, t, instances[1..]);
    }
  }

  /** The verdict of a validation depends on what is read and on the two keys, and on nothing else; so does the note to
      promote the pending key, but that a refusal for unreadable or missing ones leaves it as it was. */
  lemma VerdictByReads(c: Crypto, l: Layout, s: Store, t: Store)
    requires l.Acyclic() && forall i :: Read(l, s, i) == Read(l, t, i)
    requires KeyAt(c, s.disk, l.privateKeyPath) == KeyAt(c, t.disk, l.privateKeyPath)
    requires KeyAt(c, s.disk, l.pendingPrivateKeyPath) == KeyAt(c, t.disk, l.pendingPrivateKeyPath)
    ensures Validate(c, l, s).1 == Validate(c, l, t).1
    ensures s.promotes == t.promotes || Validate(c, l, s).1.None? ==>
              Validate(c, l, s).0.promotes == Validate(c, l, t).0.promotes
  {
    hide Read, KeyAt, Judge, ParseCertificates, IssuersOf;
    IssuersByReads(c, l, s, t, l.issuerInstances);
    assert Read(l, s, l.operationalInstance) == Read(l, t, l.operationalInstance);
    JudgeLooksAtThese(c, s, t, IssuersOf(c, l, s, l.issuerInstances),
                      ParseCertificates(c, Effective(l, s, l.operationalInstance)),
                      KeyAt(c, s.disk, l.privateKeyPath), KeyAt(c, s.disk, l.pendingPrivateKeyPath));
  }

  lemma JudgeLooksAtThese(c: Crypto, s: Store, t: Store, issuers: Option<seq<X509>>, operational: Option<seq<X509>>,
                          key: Option<Key>, pending: Option<Key>)
        ensures Judge(c, s, issuers, operational, key, pending).1 == Judge(c, t, issuers, operational, key, pending).1
    ensures s.promotes == t.promotes || Judge(c, s, issuers, operational, key, pending).1.None? ==>
              Judge(c, s, issuers, operational, key, pending).0.promotes ==
              Judge(c, t, issuers, operational, key, pending).0.promotes
  {
    hide RoleRefusal;
  }

  /** An accepted set stays accepted when the key its certificate is for has become the private key. */
  lemma ValidateByReads(c: Crypto, l: Layout, s: Store, t: Store)
    requires l.Acyclic() && forall i :: Read(l, s, i) == Read(l, t, i)
    requires Validate(c, l, s).1 == None
    requires var wanted := if Validate(c, l, s).0.promotes then l.pendingPrivateKeyPath else l.privateKeyPath;
             KeyAt(c, t.disk, l.privateKeyPath) == KeyAt(c, s.disk, wanted)
    ensures Validate(c, l, t) == (t.(promotes := false), None)
  {
    hide Read, KeyAt, RoleRefusal, ParseCertificates, IssuersOf;
    IssuersByReads(c, l, s, t, l.issuerInstances);
    assert Read(l, s, l.operationalInstance) == Read(l, t, l.operationalInstance);
  }

  /** A successful commit leaves the private key, or has put the pending one in its place. */
  lemma KeyAfterCommit(c: Crypto, l: Layout, s: Store, env: Env)
    requires l.DistinctPaths() && s.staged.Keys <= l.paths.Keys && Commit(l, s, env).1 == Done(true)
    requires s.promotes ==> l.pendingPrivateKeyPath != []
    ensures var t, was := Commit(l, s, env).0, if s.promotes then l.pendingPrivateKeyPath else l.privateKeyPath;
            t.staged == map[] && !t.promotes && KeyAt(c, t.disk, l.privateKeyPath) == KeyAt(c, s.disk, was)
  {
    hide Commit, Renamed;
    CommitSplits(l, s, env);
    RenamedKeys(l, s, env, l.privateKeyPath);
    RenamedKeys(l, s, env, l.pendingPrivateKeyPath);
  }

  /** After a successful validation and a successful commit nothing is staged, the files on disk pass the same
      validation, and the certificate is for the key that is now the private key: no promotion is left to do. */
  lemma ValidatedThenCommitted(c: Crypto, l: Layout, s: Store, env: Env)
    requires l.WellFormed() && s.staged.Keys <= l.paths.Keys && Validate(c, l, s).1 == None
    requires Commit(l, s.(promotes := Validate(c, l, s).0.promotes), env).1 == Done(true)
    ensures var t := Commit(l, s.(promotes := Validate(c, l, s).0.promotes), env).0;
            t.staged == map[] && !t.promotes && Validate(c, l, t) == (t, None)
  {
    hide Commit, Read, KeyAt, Validate;
    var v := s.(promotes := Validate(c, l, s).0.promotes);
    var t := Commit(l, v, env).0;
    forall i
      ensures Read(l, s, i) == Read(l, t, i)
    {
      CommitKeepsReads(l, v, env, i);
      ReadByView(l, s, v, i);
    }
    ValidateChangesOnlyPromotes(c, l, s);
    KeyAfterCommit(c, l, v, env);
    ValidateByReads(c, l, s, t);
  }

  /** ValidateStaged changes nothing but whether the next commit promotes the pending key, if there is one. */
  lemma ValidateChangesOnlyPromotes(c: Crypto, l: Layout, s: Store)
    requires l.Acyclic()
    ensures Validate(c, l, s).0 == s.(promotes := Validate(c, l, s).0.promotes)
    ensures Validate(c, l, s).1 == None && Validate(c, l, s).0.promotes ==> l.pendingPrivateKeyPath != []
  {
    hide Read, RoleRefusal, ParseCertificates, IssuersOf, Effective;
  }
}
