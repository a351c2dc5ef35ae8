/** Paths of a CARI tree: '/'-separated, as zip entries name them (cari.cpp). */
module CariPath {
  import opened Octets

  /** Where the first '/' at or after `from` is; the length if there is none. */
  function NextSlash(path: Text, from: nat): (k: nat)
    requires from <= |path|
    ensures from <= k <= |path| && (k < |path| ==> path[k] == '/')
    ensures forall j :: from <= j < k ==> path[j] != '/'
    decreases |path| - from
  {
    if from == |path| || path[from] == '/' then from else NextSlash(path, from + 1)
  }

  /** The parts as std::getline gives them: nothing after a last '/', an empty part between two. */
  function Split(path: Text): seq<Text>
    decreases |path|
  {
    if path == [] then []
    else
      var k := NextSlash(path, 0);
      [path[..k]] + if k == |path| then [] else Split(path[k + 1..])
  }

  function Join(parts: seq<Text>): Text {
    if parts == [] then [] else if |parts| == 1 then parts[0] else parts[0] + "/" + Join(parts[1..])
  }

  predicate GoodPart(part: Text) {
    part != [] && part != "." && part != ".." &&
    forall k :: 0 <= k < |part| ==> part[k] >= ' ' && part[k] as int != 0x7F
  }

  predicate IsSafeZipPath(path: Text) {
    path != [] && path[0] != '/' && '\\' !in path && ':' !in path &&
    forall part :: part in Split(path) ==> GoodPart(part)
  }

  /** No '/' at the end. */
  predicate Canonical(path: Text) {
    path != [] && path[|path| - 1] != '/'
  }

  /** `path[..k]` is a folder above `path`, or `path` itself. */
  predicate Boundary(path: Text, k: nat) {
    0 < k <= |path| && path[k - 1] != '/' && (k == |path| || path[k] == '/')
  }

  // ---- Splitting and joining ----------------------------------------------

  lemma {:induction false} NoSlashInParts(path: Text)
    ensures forall part :: part in Split(path) ==> '/' !in part
    ensures path != [] ==> Split(path) != []
    decreases |path|
  {
    if path != [] {
      var k := NextSlash(path, 0);
      if k < |path| {
        NoSlashInParts(path[k + 1..]);
      }
    }
  }

  lemma NextSlashIs(path: Text, from: nat, k: nat)
    requires from <= k <= |path| && (k < |path| ==> path[k] == '/') && forall j :: from <= j < k ==> path[j] != '/'
    ensures NextSlash(path, from) == k
  {
  }

  /** Splitting at any '/' that ends a non-empty part. */
  lemma {:induction false} SplitAt(path: Text, k: nat)
    requires 0 < k < |path| && path[k] == '/' && path[k - 1] != '/'
    ensures Split(path) == Split(path[..k]) + Split(path[k + 1..])
    decreases |path|
  {
    var s := NextSlash(path, 0);
    if s == k {
      NextSlashIs(path[..k], 0, k);
      assert Split(path[..k]) == [path[..k]] by {
        assert path[..k][..k] == path[..k];
      }
    } else {
      NextSlashIs(path[..k], 0, s);
      assert path[..k][..s] == path[..s] && path[..k][s + 1..] == path[s + 1..][..k - s - 1];
      assert path[s + 1..][k - s..] == path[k + 1..];
      SplitAt(path[s + 1..], k - s - 1);
      assert [path[..s]] + (Split(path[..k][s + 1..]) + Split(path[k + 1..])) ==
             [path[..s]] + Split(path[..k][s + 1..]) + Split(path[k + 1..]);
    }
  }

  lemma SplitFirst(path: Text)
    requires path != []
    ensures var k := NextSlash(path, 0);
            Split(path) == [path[..k]] + if k == |path| then [] else Split(path[k + 1..])
  {
  }

  lemma FirstPart(path: Text, k: nat)
    requires k <= |path| && (k < |path| ==> path[k] == '/')
    ensures path == path[..k] + (if k == |path| then [] else "/" + path[k + 1..])
  {
    if k < |path| {
      assert path[k..] == "/" + path[k + 1..];
    }
  }

  lemma JoinFirst(first: Text, rest: seq<Text>)
    ensures Join([first] + rest) == first + (if rest == [] then [] else "/" + Join(rest))
  {
    assert ([first] + rest)[1..] == rest;
    if rest == [] {
      assert first + [] == first;
    }
  }

  lemma {:induction false} JoinSplit(path: Text)
    requires Canonical(path)
    ensures Join(Split(path)) == path
    decreases |path|
  {
    hide Split, Join;
    var k := NextSlash(path, 0);
    SplitFirst(path);
    FirstPart(path, k);
    JoinFirst(path[..k], if k == |path| then [] else Split(path[k + 1..]));
    if k < |path| {
      JoinSplit(path[k + 1..]);
      NoSlashInParts(path[k + 1..]);
    }
  }

  lemma {:induction false} SplitJoin(parts: seq<Text>)
    requires parts != [] && parts[|parts| - 1] != [] && forall part :: part in parts ==> '/' !in part
    ensures Split(Join(parts)) == parts && Canonical(Join(parts))
    decreases |parts|
  {
    hide Split, Join;
    var first, rest := parts[0], parts[1..];
    JoinFirst(first, rest);
    assert parts == [first] + rest;
    var path := Join(parts);
    assert forall j :: 0 <= j < |first| ==> path[j] == first[j] && first[j] in first;
    NextSlashIs(path, 0, |first|);
    SplitFirst(path);
    assert path[..|first|] == first;
    if rest != [] {
      SplitJoin(rest);
      assert path[|first| + 1..] == Join(rest);
    }
  }

  // ---- Safe paths ---------------------------------------------------------

  /** A folder above a safe path is safe and canonical. */
  lemma PrefixIsSafe(path: Text, k: nat)
    requires IsSafeZipPath(path) && Boundary(path, k)
    ensures IsSafeZipPath(path[..k]) && Canonical(path[..k])
  {
    hide Split;
    if k < |path| {
      SplitAt(path, k);
    } else {
      assert path[..k] == path;
    }
  }

  /** In a safe path a '/' ends a non-empty part. */
  lemma {:induction false} SlashEndsPart(path: Text, k: nat)
    requires [] !in Split(path) && k < |path| && path[k] == '/'
    ensures k > 0 && path[k - 1] != '/'
    decreases |path|
  {
    hide Split;
    var s := NextSlash(path, 0);
    SplitFirst(path);
    assert path[..s] in Split(path);
    if s < k {
      assert [] in Split(path[s + 1..]) ==> [] in Split(path);
      SlashEndsPart(path[s + 1..], k - s - 1);
    }
  }
}
