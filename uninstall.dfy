/** `uninstall(nameOrPath)` of the SDK module: every installed SDK whose name or
    path equals the argument is deleted and returned. The installed SDKs, which
    the source gathers with `getInstalledSDKs(true)`, are a parameter. */
module Uninstall {
  import opened Base
  import opened Paths
  import opened Disk

  /** What the uninstaller needs to know of an installed SDK. */
  datatype InstalledSdk = InstalledSdk(name: string, path: string)

  predicate Selects(sdk: InstalledSdk, x: string) {
    sdk.name == x || sdk.path == x
  }

  /** The SDKs that match `x`, in their listed order. */
  function Matching(sdks: seq<InstalledSdk>, x: string): (r: seq<InstalledSdk>)
    ensures |r| <= |sdks|
    ensures forall i :: 0 <= i < |r| ==> Selects(r[i], x)
    decreases |sdks|
  {
    if sdks == [] then []
    else
      var front := Matching(sdks[..|sdks| - 1], x);
      if Selects(sdks[|sdks| - 1], x) then front + [sdks[|sdks| - 1]] else front
  }

  /** The tree after `fs.remove` of each SDK's path in turn. */
  function RemoveEach(t: Tree, sdks: seq<InstalledSdk>): Tree
    decreases |sdks|
  {
    if sdks == [] then t
    else Remove(RemoveEach(t, sdks[..|sdks| - 1]), Components(sdks[|sdks| - 1].path))
  }

  /** A path is gone when it lies inside one of the removed SDK paths. */
  predicate Covered(q: Path, sdks: seq<InstalledSdk>) {
    exists i :: 0 <= i < |sdks| && Under(q, Components(sdks[i].path))
  }

  /** An SDK is matched exactly when it is listed and its name or path equals `x`. */
  lemma {:induction false} MatchingMembers(sdks: seq<InstalledSdk>, x: string, sdk: InstalledSdk)
    ensures sdk in Matching(sdks, x) <==> sdk in sdks && Selects(sdk, x)
    decreases |sdks|
  {
    if sdks != [] {
      var front := sdks[..|sdks| - 1];
      MatchingMembers(front, x, sdk);
      assert sdks == front + [sdks[|sdks| - 1]];
    }
  }

  /** Removing a list of SDK paths deletes exactly what lies inside one of them,
      and leaves every remaining file's contents alone. */
  lemma {:induction false} RemoveEachEffect(t: Tree, sdks: seq<InstalledSdk>, q: Path)
    ensures q in RemoveEach(t, sdks).dirs <==> q in t.dirs && !Covered(q, sdks)
    ensures q in RemoveEach(t, sdks).files <==> q in t.files && !Covered(q, sdks)
    ensures q in RemoveEach(t, sdks).files ==> RemoveEach(t, sdks).files[q] == t.files[q]
    decreases |sdks|
  {
    if sdks != [] {
      var front := sdks[..|sdks| - 1];
      var last := Components(sdks[|sdks| - 1].path);
      RemoveEachEffect(t, front, q);
      if Covered(q, sdks) && !Under(q, last) {
        var i :| 0 <= i < |sdks| && Under(q, Components(sdks[i].path));
        assert i < |front| && front[i] == sdks[i];
      }
      if Covered(q, front) {
        var i :| 0 <= i < |front| && Under(q, Components(front[i].path));
        assert sdks[i] == front[i];
      }
    }
  }

  lemma RemoveEachAppend(t: Tree, sdks: seq<InstalledSdk>, sdk: InstalledSdk)
    ensures RemoveEach(t, sdks + [sdk]) == Remove(RemoveEach(t, sdks), Components(sdk.path))
  {
    assert (sdks + [sdk])[..|sdks|] == sdks;
  }

  /** One more listed SDK extends the matches by itself exactly when it is selected. */
  lemma MatchingNext(sdks: seq<InstalledSdk>, x: string, i: nat)
    requires i < |sdks|
    ensures Matching(sdks[..i + 1], x) ==
              if Selects(sdks[i], x) then Matching(sdks[..i], x) + [sdks[i]] else Matching(sdks[..i], x)
  {
    assert sdks[..i + 1][..i] == sdks[..i];
  }

  /** `uninstall(nameOrPath)`: an argument that is not a non-empty string is a
      `TypeError`; otherwise each matching SDK, in order, is collected and its
      path removed, and no match at all is `ENOTFOUND`. */
  method Uninstall(fs: FileSystem, nameOrPath: Arg<string>, sdks: seq<InstalledSdk>)
    returns (r: Result<seq<InstalledSdk>>)
    requires fs.Valid()
    requires forall i :: 0 <= i < |sdks| ==> Components(sdks[i].path) != []
    modifies fs
    ensures fs.Valid()
    ensures !IsNonEmptyString(nameOrPath) ==> r == Err(NotNameOrPath) && fs.tree == old(fs.tree)
    ensures IsNonEmptyString(nameOrPath) ==>
              var found := Matching(sdks, nameOrPath.value);
              fs.tree == RemoveEach(old(fs.tree), found) &&
              r == if found == [] then Err(SdkNotFound(nameOrPath.value)) else Ok(found)
  {
    if !IsNonEmptyString(nameOrPath) {
      return Err(NotNameOrPath);
    }
    var found := RemoveMatching(fs, nameOrPath.value, sdks);
    if found == [] {
      return Err(SdkNotFound(nameOrPath.value));
    }
    return Ok(found);
  }

  /** The loop of `uninstall`: each SDK that `x` selects, in order, is collected
      and its path removed. */
  method RemoveMatching(fs: FileSystem, x: string, sdks: seq<InstalledSdk>)
    returns (results: seq<InstalledSdk>)
    requires fs.Valid()
    requires forall i :: 0 <= i < |sdks| ==> Components(sdks[i].path) != []
    modifies fs
    ensures fs.Valid()
    ensures results == Matching(sdks, x) && fs.tree == RemoveEach(old(fs.tree), results)
  {
    results := [];
    var i := 0;
    while i < |sdks|
      invariant 0 <= i <= |sdks| && fs.Valid()
      invariant results == Matching(sdks[..i], x)
      invariant fs.tree == RemoveEach(old(fs.tree), results)
    {
      var sdk := sdks[i];
      MatchingNext(sdks, x, i);
      if Selects(sdk, x) {
        RemoveEachAppend(old(fs.tree), results, sdk);
        results := results + [sdk];
        fs.RemoveAll(Components(sdk.path));
      }
      i := i + 1;
    }
    assert sdks[..i] == sdks;
  }

  /** After uninstalling `x`, nothing is left inside the path of an SDK named
      `x` or located at `x`, and everything outside every such path is kept. */
  lemma UninstallEffect(t: Tree, sdks: seq<InstalledSdk>, x: string, sdk: InstalledSdk, q: Path)
    requires sdk in sdks && Selects(sdk, x) && Under(q, Components(sdk.path))
    ensures q !in RemoveEach(t, Matching(sdks, x)).dirs && q !in RemoveEach(t, Matching(sdks, x)).files
  {
    var found := Matching(sdks, x);
    MatchingMembers(sdks, x, sdk);
    var i :| 0 <= i < |found| && found[i] == sdk;
    RemoveEachEffect(t, found, q);
  }

  /** A path that lies inside no matching SDK's path is untouched. */
  lemma UninstallKeeps(t: Tree, sdks: seq<InstalledSdk>, x: string, q: Path)
    requires forall sdk :: sdk in sdks && Selects(sdk, x) ==> !Under(q, Components(sdk.path))
    ensures q in RemoveEach(t, Matching(sdks, x)).dirs <==> q in t.dirs
    ensures q in RemoveEach(t, Matching(sdks, x)).files <==> q in t.files
    ensures q in t.files ==> RemoveEach(t, Matching(sdks, x)).files[q] == t.files[q]
  {
    var found := Matching(sdks, x);
    RemoveEachEffect(t, found, q);
    if Covered(q, found) {
      var i :| 0 <= i < |found| && Under(q, Components(found[i].path));
      MatchingMembers(sdks, x, found[i]);
    }
  }
}
