/** Steps 2 and 3 of `install`, and `uninstall`: the SDK zip is extracted into a
    temporary directory while the entry callback picks up the SDK name and refuses
    an SDK that is already installed; then the SDK directory and every bundled
    module version are moved into the install location, and the temporary
    directory is removed whatever happened. */
module Install {
  import opened Base
  import opened Text
  import opened Paths
  import opened Disk
  import opened Extract

  /** `os` of `util.js`: `darwin` is reported as `osx`, other platforms as they are. */
  function OsName(platform: string): (r: string)
    ensures platform == "darwin" ==> r == "osx"
    ensures platform != "darwin" ==> r == platform
    ensures r != "darwin"
  {
    if platform == "darwin" then "osx" else platform
  }

  /* ---------- the SDK name in the zip ---------- */

  predicate IsSep(c: char) {
    c == '/' || c == '\\'
  }

  /** The end of the run of non-separators that starts at `i`. */
  function SegmentEnd(s: string, i: nat): (r: nat)
    requires i <= |s|
    ensures i <= r <= |s|
    ensures forall j :: i <= j < r ==> !IsSep(s[j])
    ensures r < |s| ==> IsSep(s[r])
    decreases |s| - i
  {
    if i == |s| || IsSep(s[i]) then i else SegmentEnd(s, i + 1)
  }

  const SdkPrefix := "mobilesdk"

  /** `filename.match(sdkDestRegExp)[1]`, where the pattern is
      `^mobilesdk[/\\]<os>[/\\]([^/\\]+)`: the run of non-separators after the
      two-directory prefix, when it is not empty. */
  function SdkDestMatch(f: string, os: string): (r: Option<string>)
    ensures r.Some? ==>
              var k := |SdkPrefix| + |os| + 2;
              |f| >= k + |r.value| && f[..|SdkPrefix|] == SdkPrefix && IsSep(f[|SdkPrefix|]) &&
              f[|SdkPrefix| + 1..|SdkPrefix| + 1 + |os|] == os && IsSep(f[k - 1]) &&
              f[k..k + |r.value|] == r.value && r.value != "" &&
              (forall c :: c in r.value ==> !IsSep(c)) &&
              (k + |r.value| < |f| ==> IsSep(f[k + |r.value|]))
  {
    var k := |SdkPrefix| + |os| + 2;
    if |f| > k && f[..|SdkPrefix|] == SdkPrefix && IsSep(f[|SdkPrefix|]) &&
       f[|SdkPrefix| + 1..|SdkPrefix| + 1 + |os|] == os && IsSep(f[k - 1]) then
      var e := SegmentEnd(f, k);
      if e > k then
        assert forall c :: c in f[k..e] ==> !IsSep(c);
        Some(f[k..e])
      else None
    else None
  }

  /** An entry `mobilesdk/<os>/<name>` followed by nothing or by a separator names
      the SDK `<name>`, whichever separators the archive uses. */
  lemma SdkDestOf(os: string, sep1: char, sep2: char, name: string, rest: string)
    requires IsSep(sep1) && IsSep(sep2)
    requires name != "" && forall c :: c in name ==> !IsSep(c)
    requires rest == "" || IsSep(rest[0])
    ensures SdkDestMatch(SdkPrefix + [sep1] + os + [sep2] + name + rest, os) == Some(name)
  {
    var f := SdkPrefix + [sep1] + os + [sep2] + name + rest;
    var k := |SdkPrefix| + |os| + 2;
    assert f[..|SdkPrefix|] == SdkPrefix;
    assert f[|SdkPrefix|] == sep1;
    assert f[|SdkPrefix| + 1..|SdkPrefix| + 1 + |os|] == os;
    assert f[k - 1] == sep2;
    assert f[k..k + |name|] == name;
    forall j | k <= j < k + |name| ensures !IsSep(f[j]) {
      assert f[j] == name[j - k];
    }
    if rest != "" {
      assert f[k + |name|] == rest[0];
    }
    var e := SegmentEnd(f, k);
    assert e == k + |name|;
  }

  /** `path.join(titaniumDir, 'mobilesdk', os, name)` */
  function SdkDir(titaniumDir: Path, os: string, name: string): Path {
    titaniumDir + [SdkPrefix, os, name]
  }

  /** The `onEntry` callback of `install`. Its state is the captured `name`; the
      check for an existing SDK reads `installed`, the directories that exist when
      extraction starts (extraction only touches paths outside the install
      location, see `ExtractFrame`). A name once found is kept. */
  function NameHook(os: string, titaniumDir: Path, installed: set<Path>, overwrite: bool): Hook<Option<string>> {
    (name: Option<string>, fileName: string, idx: nat, total: nat) =>
      if name.Some? then Ok(name)
      else match SdkDestMatch(fileName, os)
        case None => Ok(None)
        case Some(n) =>
          var dir := SdkDir(titaniumDir, os, n);
          if !overwrite && dir in installed then Err(SdkExists(n, PathText(dir))) else Ok(Some(n))
  }

  /** The name in the first entry from `i` on that matches the SDK pattern. */
  function FirstName(entries: seq<ZipEntry>, i: nat, os: string): Option<string>
    requires i <= |entries|
    decreases |entries| - i
  {
    if i == |entries| then None
    else match SdkDestMatch(entries[i].fileName, os)
      case Some(n) => Some(n)
      case None => FirstName(entries, i + 1, os)
  }

  /** An extraction with the name callback ends, when it succeeds, with the name of
      the first matching entry (or the name it started with), and never with the
      name of an SDK that is already installed unless `overwrite` is set; if that
      first entry names an installed SDK and `overwrite` is not set, it fails. */
  lemma {:induction false} NameHookOutcome(t: Tree, dest: Path, entries: seq<ZipEntry>, i: nat,
                                           state: Option<string>, os: string, titaniumDir: Path,
                                           installed: set<Path>, overwrite: bool)
    requires i <= |entries|
    ensures var o := ExtractFrom(t, dest, entries, i, state, Some(NameHook(os, titaniumDir, installed, overwrite)));
            (o.result.Ok? ==> o.result.value == if state.Some? then state else FirstName(entries, i, os)) &&
            (o.result.Ok? && state.None? && o.result.value.Some? ==>
               overwrite || SdkDir(titaniumDir, os, o.result.value.value) !in installed) &&
            ((state.None? && FirstName(entries, i, os).Some? && !overwrite &&
              SdkDir(titaniumDir, os, FirstName(entries, i, os).value) in installed) ==> o.result.Err?)
    decreases |entries| - i
  {
    if i < |entries| {
      var hook := NameHook(os, titaniumDir, installed, overwrite);
      var called := hook(state, entries[i].fileName, i + 1, |entries|);
      if called.Ok? {
        var step := ApplyEntry(t, dest, entries[i]);
        if step.error.None? {
          NameHookOutcome(step.tree, dest, entries, i + 1, called.value, os, titaniumDir, installed, overwrite);
        }
      }
    }
  }

  /** Same tree contents at `q`. */
  ghost predicate SameAt(t: Tree, u: Tree, q: Path) {
    (q in t.dirs <==> q in u.dirs) && (q in t.files <==> q in u.files) &&
    (q in t.files && q in u.files ==> t.files[q] == u.files[q])
  }

  /** Neither path lies inside the other. */
  predicate Apart(a: Path, b: Path) {
    !IsPrefix(a, b) && !IsPrefix(b, a)
  }

  lemma ApplyEntryFrame(t: Tree, dest: Path, e: ZipEntry, q: Path)
    requires !IsPrefix(q, EntryPath(dest, e.fileName))
    ensures SameAt(t, ApplyEntry(t, dest, e).tree, q)
  {
    var full := EntryPath(dest, e.fileName);
    if !IsDirEntry(e.fileName) {
      if IsPrefix(q, Dirname(full)) {
        PrefixTransitive(q, Dirname(full), full);
      }
    }
  }

  /** Extraction into `dest` leaves every path apart from `dest` as it was. */
  lemma {:induction false} ExtractFrame<S>(t: Tree, dest: Path, entries: seq<ZipEntry>, i: nat,
                                           state: S, hook: Option<Hook<S>>, q: Path)
    requires i <= |entries| && Apart(q, dest)
    ensures SameAt(t, ExtractFrom(t, dest, entries, i, state, hook).tree, q)
    decreases |entries| - i
  {
    if i < |entries| {
      var called := if hook.Some? then hook.value(state, entries[i].fileName, i + 1, |entries|) else Ok(state);
      if called.Ok? {
        var full := EntryPath(dest, entries[i].fileName);
        if IsPrefix(q, full) {
          PrefixesComparable(q, dest, full);
        }
        ApplyEntryFrame(t, dest, entries[i], q);
        var step := ApplyEntry(t, dest, entries[i]);
        if step.error.None? {
          ExtractFrame(step.tree, dest, entries, i + 1, called.value, hook, q);
        }
      }
    }
  }

  /** Paths inside two roots that are apart are apart. */
  lemma RootsApart(a: Path, b: Path, p: Path, q: Path)
    requires Apart(a, b) && IsPrefix(a, p) && IsPrefix(b, q)
    ensures Apart(p, q)
  {
    if IsPrefix(p, q) {
      PrefixTransitive(a, p, q);
      PrefixesComparable(a, b, q);
    }
    if IsPrefix(q, p) {
      PrefixTransitive(b, q, p);
      PrefixesComparable(a, b, p);
    }
  }

  /* ---------- module placement ---------- */

  /** A bundled module version: `modules/<platform>/<name>/<version>`. */
  datatype ModuleDir = ModuleDir(platform: string, name: string, version: string)

  function ModulePath(root: Path, m: ModuleDir): Path {
    root + ["modules", m.platform, m.name, m.version]
  }

  /** A module version directory of the extracted tree. */
  ghost predicate VersionDir(t: Tree, temp: Path, m: ModuleDir) {
    ModulePath(temp, m) in t.dirs
  }

  predicate DistinctDirs(s: seq<ModuleDir>) {
    forall i, j :: 0 <= i < j < |s| ==> s[i] != s[j]
  }

  /** One version: skipped when its destination is a directory and `overwrite` is
      not set, otherwise moved there with `fs.move(src, dest, { overwrite: true })`. */
  function PlaceOne(t: Tree, temp: Path, ti: Path, overwrite: bool, m: ModuleDir): Result<Tree>
    requires Apart(temp, ti)
  {
    var dest := ModulePath(ti, m);
    if !overwrite && dest in t.dirs then Ok(t)
    else
      RootsApart(temp, ti, ModulePath(temp, m), dest);
      Move(t, ModulePath(temp, m), dest)
  }

  /** The versions in the order the loops visit them; the first failing move stops
      the walk, leaving the tree the earlier moves produced. */
  function PlaceModules(t: Tree, temp: Path, ti: Path, overwrite: bool, order: seq<ModuleDir>): Step
    requires Apart(temp, ti)
    decreases |order|
  {
    if order == [] then Step(t, None)
    else
      var s := PlaceModules(t, temp, ti, overwrite, order[..|order| - 1]);
      if s.error.Some? then s
      else match PlaceOne(s.tree, temp, ti, overwrite, order[|order| - 1])
        case Ok(u) => Step(u, None)
        case Err(e) => Step(s.tree, Some(e))
  }

  lemma PlaceModulesAppend(t: Tree, temp: Path, ti: Path, overwrite: bool, order: seq<ModuleDir>, m: ModuleDir)
    requires Apart(temp, ti)
    ensures var s := PlaceModules(t, temp, ti, overwrite, order);
            PlaceModules(t, temp, ti, overwrite, order + [m]) ==
              if s.error.Some? then s
              else match PlaceOne(s.tree, temp, ti, overwrite, m)
                case Ok(u) => Step(u, None)
                case Err(e) => Step(s.tree, Some(e))
  {
    assert (order + [m])[..|order|] == order;
  }

  /** What a move leaves of paths apart from both ends that are not ancestors of its
      destination: nothing changes there. */
  ghost predicate Clear(q: Path, temp: Path, ti: Path, m: ModuleDir) {
    !Under(q, ModulePath(temp, m)) && !Under(q, ModulePath(ti, m)) && !StrictAncestor(q, ModulePath(ti, m))
  }

  lemma PlaceOneFrame(t: Tree, temp: Path, ti: Path, overwrite: bool, m: ModuleDir, q: Path)
    requires WellFormed(t) && Apart(temp, ti) && PlaceOne(t, temp, ti, overwrite, m).Ok?
    requires Clear(q, temp, ti, m)
    ensures WellFormed(PlaceOne(t, temp, ti, overwrite, m).value)
    ensures SameAt(t, PlaceOne(t, temp, ti, overwrite, m).value, q)
  {
    var src := ModulePath(temp, m);
    var dest := ModulePath(ti, m);
    if overwrite || dest !in t.dirs {
      RootsApart(temp, ti, src, dest);
      MoveWellFormed(t, src, dest);
      MoveDirs(t, src, dest, q);
      MoveFiles(t, src, dest, q);
    }
  }

  lemma PlaceOneWellFormed(t: Tree, temp: Path, ti: Path, overwrite: bool, m: ModuleDir)
    requires WellFormed(t) && Apart(temp, ti) && PlaceOne(t, temp, ti, overwrite, m).Ok?
    ensures WellFormed(PlaceOne(t, temp, ti, overwrite, m).value)
  {
    var src := ModulePath(temp, m);
    var dest := ModulePath(ti, m);
    if overwrite || dest !in t.dirs {
      RootsApart(temp, ti, src, dest);
      MoveWellFormed(t, src, dest);
    }
  }

  /** The walk keeps the tree well-formed. */
  lemma {:induction false} PlaceModulesWellFormed(t: Tree, temp: Path, ti: Path, overwrite: bool, order: seq<ModuleDir>)
    requires WellFormed(t) && Apart(temp, ti)
    ensures WellFormed(PlaceModules(t, temp, ti, overwrite, order).tree)
    decreases |order|
  {
    if order != [] {
      var front := order[..|order| - 1];
      PlaceModulesWellFormed(t, temp, ti, overwrite, front);
      var s := PlaceModules(t, temp, ti, overwrite, front);
      if s.error.None? && PlaceOne(s.tree, temp, ti, overwrite, order[|order| - 1]).Ok? {
        PlaceOneWellFormed(s.tree, temp, ti, overwrite, order[|order| - 1]);
      }
    }
  }

  /** A path clear of every visited version is as it was. */
  lemma {:induction false} PlaceModulesFrame(t: Tree, temp: Path, ti: Path, overwrite: bool,
                                             order: seq<ModuleDir>, q: Path)
    requires WellFormed(t) && Apart(temp, ti)
    requires forall m :: m in order ==> Clear(q, temp, ti, m)
    ensures SameAt(t, PlaceModules(t, temp, ti, overwrite, order).tree, q)
    decreases |order|
  {
    if order != [] {
      var front := order[..|order| - 1];
      var m := order[|order| - 1];
      assert forall x :: x in front ==> x in order;
      PlaceModulesFrame(t, temp, ti, overwrite, front, q);
      PlaceModulesWellFormed(t, temp, ti, overwrite, front);
      var s := PlaceModules(t, temp, ti, overwrite, front);
      if s.error.None? && PlaceOne(s.tree, temp, ti, overwrite, m).Ok? {
        PlaceOneFrame(s.tree, temp, ti, overwrite, m, q);
      }
    }
  }

  lemma ModulePathInjective(root: Path, m: ModuleDir, n: ModuleDir)
    requires ModulePath(root, m) == ModulePath(root, n)
    ensures m == n
  {
    var p := ModulePath(root, m);
    assert p[|root| + 1] == m.platform && p[|root| + 2] == m.name && p[|root| + 3] == m.version;
  }

  /** A path inside one version's source or destination is clear of every other
      version. */
  lemma Separate(temp: Path, ti: Path, m: ModuleDir, n: ModuleDir, q: Path)
    requires Apart(temp, ti) && m != n
    requires Under(q, ModulePath(temp, m)) || Under(q, ModulePath(ti, m))
    ensures Clear(q, temp, ti, n)
  {
    var sm, dm := ModulePath(temp, m), ModulePath(ti, m);
    var sn, dn := ModulePath(temp, n), ModulePath(ti, n);
    var root := if Under(q, sm) then sm else dm;
    assert IsPrefix(temp, sm) && IsPrefix(temp, sn) && IsPrefix(ti, dm) && IsPrefix(ti, dn);
    if Under(q, sn) {
      PrefixesComparable(root, sn, q);
      if root == sm {
        ModulePathInjective(temp, m, n);
      } else {
        RootsApart(temp, ti, sn, dm);
      }
    }
    if Under(q, dn) {
      PrefixesComparable(root, dn, q);
      if root == dm {
        ModulePathInjective(ti, m, n);
      } else {
        RootsApart(temp, ti, sm, dn);
      }
    }
    if StrictAncestor(q, dn) {
      PrefixTransitive(root, q, dn);
      if root == dm {
        ModulePathInjective(ti, m, n);
      } else {
        RootsApart(temp, ti, sm, dn);
      }
    }
  }

  /** A path inside the temporary directory above the version level is clear of
      every version. */
  lemma Shallow(temp: Path, ti: Path, m: ModuleDir, q: Path)
    requires Apart(temp, ti) && Under(q, temp) && |q| < |temp| + 4
    ensures Clear(q, temp, ti, m)
  {
    RootsApart(temp, ti, q, ModulePath(ti, m));
  }

  lemma LastNotInFront(order: seq<ModuleDir>)
    requires DistinctDirs(order) && order != []
    ensures order[|order| - 1] !in order[..|order| - 1]
  {
    var front := order[..|order| - 1];
    forall i | 0 <= i < |front| ensures front[i] != order[|order| - 1] {
      assert front[i] == order[i];
    }
  }

  lemma InFront(order: seq<ModuleDir>, m: ModuleDir)
    requires DistinctDirs(order) && m in order && m != order[|order| - 1]
    ensures m in order[..|order| - 1] && DistinctDirs(order[..|order| - 1])
  {
    var front := order[..|order| - 1];
    var i :| 0 <= i < |order| && order[i] == m;
    assert front[i] == m;
    forall i, j | 0 <= i < j < |front| ensures front[i] != front[j] {
      assert front[i] == order[i] && front[j] == order[j];
    }
  }

  /** A visited version whose destination already was a directory, without
      `overwrite`: everything inside the destination is as it was. */
  lemma {:induction false} ExistingVersionKept(t: Tree, temp: Path, ti: Path, order: seq<ModuleDir>,
                                               m: ModuleDir, q: Path)
    requires WellFormed(t) && Apart(temp, ti) && DistinctDirs(order)
    requires m in order && ModulePath(ti, m) in t.dirs && Under(q, ModulePath(ti, m))
    ensures SameAt(t, PlaceModules(t, temp, ti, false, order).tree, q)
    decreases |order|
  {
    var front := order[..|order| - 1];
    var last := order[|order| - 1];
    assert order == front + [last];
    PlaceModulesWellFormed(t, temp, ti, false, front);
    var s := PlaceModules(t, temp, ti, false, front);
    if last == m {
      LastNotInFront(order);
      forall x | x in front ensures Clear(q, temp, ti, x) && Clear(ModulePath(ti, m), temp, ti, x) {
        Separate(temp, ti, m, x, q);
        Separate(temp, ti, m, x, ModulePath(ti, m));
      }
      PlaceModulesFrame(t, temp, ti, false, front, q);
      PlaceModulesFrame(t, temp, ti, false, front, ModulePath(ti, m));
    } else {
      InFront(order, m);
      ExistingVersionKept(t, temp, ti, front, m, q);
      if s.error.None? && PlaceOne(s.tree, temp, ti, false, last).Ok? {
        Separate(temp, ti, m, last, q);
        PlaceOneFrame(s.tree, temp, ti, false, last, q);
      }
    }
  }

  /** What the destination of a moved version holds: the source's contents. */
  ghost predicate CopiedAt(t: Tree, u: Tree, src: Path, dest: Path, s: seq<string>) {
    (dest + s in u.dirs <==> src + s in t.dirs) &&
    (dest + s in u.files <==> src + s in t.files) &&
    (dest + s in u.files && src + s in t.files ==> u.files[dest + s] == t.files[src + s])
  }

  /** The move of one version, seen from the tree the walk started with. */
  lemma PlaceOneCopies(t: Tree, u: Tree, temp: Path, ti: Path, overwrite: bool, m: ModuleDir, s: seq<string>)
    requires WellFormed(u) && Apart(temp, ti) && PlaceOne(u, temp, ti, overwrite, m).Ok?
    requires SameAt(t, u, ModulePath(temp, m) + s) && SameAt(t, u, ModulePath(ti, m))
    requires overwrite || ModulePath(ti, m) !in t.dirs
    ensures CopiedAt(t, PlaceOne(u, temp, ti, overwrite, m).value, ModulePath(temp, m), ModulePath(ti, m), s)
  {
    var src, dest := ModulePath(temp, m), ModulePath(ti, m);
    RootsApart(temp, ti, src, dest);
    MoveDirs(u, src, dest, dest + s);
    MoveFiles(u, src, dest, dest + s);
    assert (dest + s)[|dest|..] == s;
  }

  /** A visited version whose destination was not a directory, or any visited
      version with `overwrite`: after a walk without failures its destination
      holds exactly what its source held. */
  lemma {:induction false} VersionMoved(t: Tree, temp: Path, ti: Path, overwrite: bool, order: seq<ModuleDir>,
                                        m: ModuleDir, s: seq<string>)
    requires WellFormed(t) && Apart(temp, ti) && DistinctDirs(order)
    requires m in order && (overwrite || ModulePath(ti, m) !in t.dirs)
    requires PlaceModules(t, temp, ti, overwrite, order).error.None?
    ensures CopiedAt(t, PlaceModules(t, temp, ti, overwrite, order).tree, ModulePath(temp, m), ModulePath(ti, m), s)
    decreases |order|
  {
    var front := order[..|order| - 1];
    var last := order[|order| - 1];
    PlaceModulesWellFormed(t, temp, ti, overwrite, front);
    var st := PlaceModules(t, temp, ti, overwrite, front);
    assert st.error.None? && PlaceOne(st.tree, temp, ti, overwrite, last).Ok?;
    assert PlaceModules(t, temp, ti, overwrite, order).tree == PlaceOne(st.tree, temp, ti, overwrite, last).value;
    var src, dest := ModulePath(temp, m), ModulePath(ti, m);
    assert Under(src + s, src) && Under(dest + s, dest);
    if last == m {
      LastNotInFront(order);
      forall x | x in front
        ensures Clear(src + s, temp, ti, x) && Clear(dest + s, temp, ti, x) && Clear(dest, temp, ti, x)
      {
        Separate(temp, ti, m, x, src + s);
        Separate(temp, ti, m, x, dest + s);
        Separate(temp, ti, m, x, dest);
      }
      PlaceModulesFrame(t, temp, ti, overwrite, front, src + s);
      PlaceModulesFrame(t, temp, ti, overwrite, front, dest);
      PlaceOneCopies(t, st.tree, temp, ti, overwrite, m, s);
    } else {
      InFront(order, m);
      VersionMoved(t, temp, ti, overwrite, front, m, s);
      Separate(temp, ti, m, last, dest + s);
      PlaceOneFrame(st.tree, temp, ti, overwrite, last, dest + s);
    }
  }

  /* ---------- the module loops ---------- */

  /** The walk so far: the versions visited, all distinct and all version
      directories of `t1`, have been placed without a failure, giving `now`. */
  ghost predicate Walked(t1: Tree, temp: Path, ti: Path, overwrite: bool, order: seq<ModuleDir>, now: Tree) {
    WellFormed(t1) && Apart(temp, ti) && DistinctDirs(order) &&
    (forall y :: y in order ==> VersionDir(t1, temp, y)) &&
    PlaceModules(t1, temp, ti, overwrite, order) == Step(now, None)
  }

  /** The directories above a version directory exist. */
  lemma VersionAncestors(t: Tree, temp: Path, y: ModuleDir)
    requires WellFormed(t)
    ensures VersionDir(t, temp, y) ==>
              temp + ["modules"] in t.dirs &&
              temp + ["modules", y.platform] in t.dirs &&
              temp + ["modules", y.platform, y.name] in t.dirs
  {
    var q := ModulePath(temp, y);
    if q in t.dirs {
      AncestorsAreDirs(t, q, |temp| + 1);
      AncestorsAreDirs(t, q, |temp| + 2);
      AncestorsAreDirs(t, q, |temp| + 3);
      assert q[..|temp| + 1] == temp + ["modules"];
      assert q[..|temp| + 2] == temp + ["modules", y.platform];
      assert q[..|temp| + 3] == temp + ["modules", y.platform, y.name];
    }
  }

  /** A version the walk has not visited still has its source and its destination
      as they were. */
  lemma UnvisitedFrame(t1: Tree, temp: Path, ti: Path, overwrite: bool, order: seq<ModuleDir>, m: ModuleDir)
    requires WellFormed(t1) && Apart(temp, ti) && m !in order
    ensures SameAt(t1, PlaceModules(t1, temp, ti, overwrite, order).tree, ModulePath(temp, m))
    ensures SameAt(t1, PlaceModules(t1, temp, ti, overwrite, order).tree, ModulePath(ti, m))
  {
    forall x | x in order ensures Clear(ModulePath(temp, m), temp, ti, x) && Clear(ModulePath(ti, m), temp, ti, x) {
      Separate(temp, ti, m, x, ModulePath(temp, m));
      Separate(temp, ti, m, x, ModulePath(ti, m));
    }
    PlaceModulesFrame(t1, temp, ti, overwrite, order, ModulePath(temp, m));
    PlaceModulesFrame(t1, temp, ti, overwrite, order, ModulePath(ti, m));
  }

  /** The platform and module directories of the temporary tree are as they were. */
  lemma ShallowFrame(t1: Tree, temp: Path, ti: Path, overwrite: bool, order: seq<ModuleDir>, q: Path)
    requires WellFormed(t1) && Apart(temp, ti) && Under(q, temp) && |q| < |temp| + 4
    ensures SameAt(t1, PlaceModules(t1, temp, ti, overwrite, order).tree, q)
  {
    forall x | x in order ensures Clear(q, temp, ti, x) {
      Shallow(temp, ti, x, q);
    }
    PlaceModulesFrame(t1, temp, ti, overwrite, order, q);
  }

  /** Visiting one more version: a placement that goes through extends the walk, a
      failing move ends it with the tree as it was. */
  lemma WalkStep(t1: Tree, temp: Path, ti: Path, overwrite: bool, order: seq<ModuleDir>, now: Tree, m: ModuleDir)
    requires Walked(t1, temp, ti, overwrite, order, now) && m !in order && VersionDir(t1, temp, m)
    ensures PlaceOne(now, temp, ti, overwrite, m).Ok? ==>
              Walked(t1, temp, ti, overwrite, order + [m], PlaceOne(now, temp, ti, overwrite, m).value)
    ensures PlaceOne(now, temp, ti, overwrite, m).Err? ==>
              PlaceModules(t1, temp, ti, overwrite, order + [m]) ==
                Step(now, Some(PlaceOne(now, temp, ti, overwrite, m).error))
  {
    PlaceModulesAppend(t1, temp, ti, overwrite, order, m);
    var o := order + [m];
    forall i, j | 0 <= i < j < |o| ensures o[i] != o[j] {
      if j < |order| {
        assert o[i] == order[i] && o[j] == order[j];
      } else {
        assert o[i] == order[i];
      }
    }
  }

  /** A walk that extends `before`, which extends `order0`, extends `order0`
      and keeps every visited version. */
  lemma PrefixExtended(order0: seq<ModuleDir>, before: seq<ModuleDir>, order: seq<ModuleDir>)
    requires |order0| <= |before| && before[..|order0|] == order0
    requires |before| <= |order| && order[..|before|] == before
    ensures |order0| <= |order| && order[..|order0|] == order0
    ensures forall y :: y in before ==> y in order
  {
    forall y | y in before ensures y in order {
      var i :| 0 <= i < |before| && before[i] == y;
      assert order[i] == y;
    }
    assert order[..|before|][..|order0|] == order[..|order0|];
  }

  lemma PrefixKept(order0: seq<ModuleDir>, order: seq<ModuleDir>, m: ModuleDir)
    requires |order0| <= |order| && order[..|order0|] == order0
    ensures |order0| <= |order + [m]| && (order + [m])[..|order0|] == order0
  {
    assert (order + [m])[..|order0|] == order[..|order0|];
  }

  /** `readdirSync` of a module directory lists every version directory of `t1`
      there, as long as none of them has been visited. */
  lemma VersionsListed(t1: Tree, temp: Path, ti: Path, overwrite: bool, order: seq<ModuleDir>, now: Tree,
                       p: string, n: string, versions: set<string>)
    requires Walked(t1, temp, ti, overwrite, order, now)
    requires forall y :: y in order ==> !(y.platform == p && y.name == n)
    requires forall v :: v in versions <==> (temp + ["modules", p, n] + [v] in now.dirs ||
                                             temp + ["modules", p, n] + [v] in now.files)
    ensures forall v :: VersionDir(t1, temp, ModuleDir(p, n, v)) ==> v in versions
  {
    forall v | VersionDir(t1, temp, ModuleDir(p, n, v)) ensures v in versions {
      var m := ModuleDir(p, n, v);
      assert temp + ["modules", p, n] + [v] == ModulePath(temp, m);
      UnvisitedFrame(t1, temp, ti, overwrite, order, m);
    }
  }

  /** The body of the innermost loop: one entry of a module directory. */
  method VisitVersion(fs: FileSystem, temp: Path, ti: Path, overwrite: bool, m: ModuleDir,
                      ghost t1: Tree, ghost order: seq<ModuleDir>)
    returns (r: Result<()>, ghost order': seq<ModuleDir>)
    requires fs.Valid() && Walked(t1, temp, ti, overwrite, order, fs.tree) && m !in order
    modifies fs
    ensures fs.Valid()
    ensures order' == if VersionDir(t1, temp, m) then order + [m] else order
    ensures r.Ok? ==> Walked(t1, temp, ti, overwrite, order', fs.tree)
    ensures r.Err? ==> PlaceModules(t1, temp, ti, overwrite, order') == Step(fs.tree, Some(r.error))
  {
    var src := temp + ["modules", m.platform, m.name, m.version];
    UnvisitedFrame(t1, temp, ti, overwrite, order, m);
    if !fs.IsDir(src) {
      return Ok(()), order;
    }
    var dest := ti + ["modules", m.platform, m.name, m.version];
    WalkStep(t1, temp, ti, overwrite, order, fs.tree, m);
    order' := order + [m];
    if !overwrite && fs.IsDir(dest) {
      return Ok(()), order';
    }
    RootsApart(temp, ti, src, dest);
    var res := fs.MoveTo(src, dest);
    if res.Err? {
      return Err(res.error), order';
    }
    return Ok(()), order';
  }

  /** The innermost loop: the versions of module `n` for platform `p`. */
  method PlaceVersions(fs: FileSystem, temp: Path, ti: Path, overwrite: bool, p: string, n: string,
                       ghost t1: Tree, ghost order0: seq<ModuleDir>)
    returns (r: Result<()>, ghost order: seq<ModuleDir>)
    requires fs.Valid() && Walked(t1, temp, ti, overwrite, order0, fs.tree)
    requires forall y :: y in order0 ==> !(y.platform == p && y.name == n)
    modifies fs
    ensures fs.Valid()
    ensures |order0| <= |order| && order[..|order0|] == order0
    ensures DistinctDirs(order) && forall y :: y in order ==> VersionDir(t1, temp, y)
    ensures forall y :: y in order ==> y in order0 || (y.platform == p && y.name == n)
    ensures r.Ok? ==> PlaceModules(t1, temp, ti, overwrite, order) == Step(fs.tree, None)
    ensures r.Ok? ==> forall v :: VersionDir(t1, temp, ModuleDir(p, n, v)) ==> ModuleDir(p, n, v) in order
    ensures r.Err? ==> PlaceModules(t1, temp, ti, overwrite, order) == Step(fs.tree, Some(r.error))
  {
    var mdir := temp + ["modules", p, n];
    var versions := fs.Children(mdir);
    VersionsListed(t1, temp, ti, overwrite, order0, fs.tree, p, n, versions);
    order := order0;
    while versions != {}
      invariant fs.Valid() && Walked(t1, temp, ti, overwrite, order, fs.tree)
      invariant |order0| <= |order| && order[..|order0|] == order0
      invariant forall y :: y in order ==> y in order0 || (y.platform == p && y.name == n && y.version !in versions)
      invariant forall v :: VersionDir(t1, temp, ModuleDir(p, n, v)) && v !in versions ==> ModuleDir(p, n, v) in order
      decreases |versions|
    {
      var v :| v in versions;
      versions := versions - {v};
      var m := ModuleDir(p, n, v);
      assert m !in order;
      PrefixKept(order0, order, m);
      var res;
      res, order := VisitVersion(fs, temp, ti, overwrite, m, t1, order);
      if res.Err? {
        return res, order;
      }
    }
    return Ok(()), order;
  }

  /** One entry of a platform directory: a module directory is walked, anything
      else is passed over. */
  method VisitModule(fs: FileSystem, temp: Path, ti: Path, overwrite: bool, p: string, n: string,
                     ghost t1: Tree, ghost order0: seq<ModuleDir>)
    returns (r: Result<()>, ghost order: seq<ModuleDir>)
    requires fs.Valid() && Walked(t1, temp, ti, overwrite, order0, fs.tree)
    requires forall y :: y in order0 ==> !(y.platform == p && y.name == n)
    modifies fs
    ensures fs.Valid()
    ensures |order0| <= |order| && order[..|order0|] == order0
    ensures DistinctDirs(order) && forall y :: y in order ==> VersionDir(t1, temp, y)
    ensures forall y :: y in order ==> y in order0 || (y.platform == p && y.name == n)
    ensures r.Ok? ==> PlaceModules(t1, temp, ti, overwrite, order) == Step(fs.tree, None)
    ensures r.Ok? ==> forall v :: VersionDir(t1, temp, ModuleDir(p, n, v)) ==> ModuleDir(p, n, v) in order
    ensures r.Err? ==> PlaceModules(t1, temp, ti, overwrite, order) == Step(fs.tree, Some(r.error))
  {
    var ndir := temp + ["modules", p, n];
    ShallowFrame(t1, temp, ti, overwrite, order0, ndir);
    if !fs.IsDir(ndir) {
      forall v ensures VersionDir(t1, temp, ModuleDir(p, n, v)) ==> ndir in t1.dirs {
        VersionAncestors(t1, temp, ModuleDir(p, n, v));
      }
      return Ok(()), order0;
    }
    r, order := PlaceVersions(fs, temp, ti, overwrite, p, n, t1, order0);
  }

  lemma NamesListed(t1: Tree, temp: Path, ti: Path, overwrite: bool, order: seq<ModuleDir>, now: Tree,
                    p: string, names: set<string>)
    requires Walked(t1, temp, ti, overwrite, order, now)
    requires forall n :: n in names <==> (temp + ["modules", p] + [n] in now.dirs ||
                                         temp + ["modules", p] + [n] in now.files)
    ensures forall y :: VersionDir(t1, temp, y) && y.platform == p ==> y.name in names
  {
    forall y | VersionDir(t1, temp, y) && y.platform == p ensures y.name in names {
      VersionAncestors(t1, temp, y);
      var q := temp + ["modules", p] + [y.name];
      assert q == temp + ["modules", y.platform, y.name];
      ShallowFrame(t1, temp, ti, overwrite, order, q);
    }
  }

  /** The middle loop: the modules of platform `p`. */
  method PlaceModuleNames(fs: FileSystem, temp: Path, ti: Path, overwrite: bool, p: string,
                          ghost t1: Tree, ghost order0: seq<ModuleDir>)
    returns (r: Result<()>, ghost order: seq<ModuleDir>)
    requires fs.Valid() && Walked(t1, temp, ti, overwrite, order0, fs.tree)
    requires forall y :: y in order0 ==> y.platform != p
    modifies fs
    ensures fs.Valid()
    ensures |order0| <= |order| && order[..|order0|] == order0
    ensures DistinctDirs(order) && forall y :: y in order ==> VersionDir(t1, temp, y)
    ensures forall y :: y in order ==> y in order0 || y.platform == p
    ensures r.Ok? ==> PlaceModules(t1, temp, ti, overwrite, order) == Step(fs.tree, None)
    ensures r.Ok? ==> forall y :: VersionDir(t1, temp, y) && y.platform == p ==> y in order
    ensures r.Err? ==> PlaceModules(t1, temp, ti, overwrite, order) == Step(fs.tree, Some(r.error))
  {
    var pdir := temp + ["modules", p];
    var names := fs.Children(pdir);
    NamesListed(t1, temp, ti, overwrite, order0, fs.tree, p, names);
    order := order0;
    while names != {}
      invariant fs.Valid() && Walked(t1, temp, ti, overwrite, order, fs.tree)
      invariant |order0| <= |order| && order[..|order0|] == order0
      invariant forall y :: y in order ==> y in order0 || (y.platform == p && y.name !in names)
      invariant forall y :: VersionDir(t1, temp, y) && y.platform == p && y.name !in names ==> y in order
      decreases |names|
    {
      var n :| n in names;
      names := names - {n};
      ghost var before := order;
      var res;
      res, order := VisitModule(fs, temp, ti, overwrite, p, n, t1, order);
      PrefixExtended(order0, before, order);
      if res.Err? {
        return res, order;
      }
      forall y | VersionDir(t1, temp, y) && y.platform == p && y.name !in names ensures y in order {
        if y.name == n {
          assert y == ModuleDir(p, n, y.version);
        }
      }
    }
    return Ok(()), order;
  }

  /** One entry of `modules`: a platform directory is walked, anything else is
      passed over. */
  method VisitPlatform(fs: FileSystem, temp: Path, ti: Path, overwrite: bool, p: string,
                       ghost t1: Tree, ghost order0: seq<ModuleDir>)
    returns (r: Result<()>, ghost order: seq<ModuleDir>)
    requires fs.Valid() && Walked(t1, temp, ti, overwrite, order0, fs.tree)
    requires forall y :: y in order0 ==> y.platform != p
    modifies fs
    ensures fs.Valid()
    ensures |order0| <= |order| && order[..|order0|] == order0
    ensures DistinctDirs(order) && forall y :: y in order ==> VersionDir(t1, temp, y)
    ensures forall y :: y in order ==> y in order0 || y.platform == p
    ensures r.Ok? ==> PlaceModules(t1, temp, ti, overwrite, order) == Step(fs.tree, None)
    ensures r.Ok? ==> forall y :: VersionDir(t1, temp, y) && y.platform == p ==> y in order
    ensures r.Err? ==> PlaceModules(t1, temp, ti, overwrite, order) == Step(fs.tree, Some(r.error))
  {
    var pdir := temp + ["modules", p];
    ShallowFrame(t1, temp, ti, overwrite, order0, pdir);
    if !fs.IsDir(pdir) {
      forall y ensures VersionDir(t1, temp, y) && y.platform == p ==> pdir in t1.dirs {
        VersionAncestors(t1, temp, y);
      }
      return Ok(()), order0;
    }
    r, order := PlaceModuleNames(fs, temp, ti, overwrite, p, t1, order0);
  }

  /** The outer loop over `<temp>/modules`: every version directory is visited
      once; the walk stops at the first failing move. */
  method PlacePlatforms(fs: FileSystem, temp: Path, ti: Path, overwrite: bool, ghost t1: Tree)
    returns (r: Result<()>, ghost order: seq<ModuleDir>)
    requires fs.Valid() && fs.tree == t1 && Apart(temp, ti)
    modifies fs
    ensures fs.Valid()
    ensures DistinctDirs(order) && forall y :: y in order ==> VersionDir(t1, temp, y)
    ensures r.Ok? ==> PlaceModules(t1, temp, ti, overwrite, order) == Step(fs.tree, None)
    ensures r.Ok? ==> forall y :: VersionDir(t1, temp, y) ==> y in order
    ensures r.Err? ==> PlaceModules(t1, temp, ti, overwrite, order) == Step(fs.tree, Some(r.error))
  {
    var src := temp + ["modules"];
    var platforms := fs.Children(src);
    forall y ensures VersionDir(t1, temp, y) ==> y.platform in platforms {
      VersionAncestors(t1, temp, y);
      assert src + [y.platform] == temp + ["modules", y.platform];
    }
    order := [];
    while platforms != {}
      invariant fs.Valid() && Walked(t1, temp, ti, overwrite, order, fs.tree)
      invariant forall y :: y in order ==> y.platform !in platforms
      invariant forall y :: VersionDir(t1, temp, y) && y.platform !in platforms ==> y in order
      decreases |platforms|
    {
      var p :| p in platforms;
      platforms := platforms - {p};
      ghost var before := order;
      var res;
      res, order := VisitPlatform(fs, temp, ti, overwrite, p, t1, order);
      assert forall y :: y in before ==> y in order by {
        forall y | y in before ensures y in order {
          var i :| 0 <= i < |before| && before[i] == y;
          assert order[i] == y;
        }
      }
      if res.Err? {
        return res, order;
      }
    }
    return Ok(()), order;
  }

  /* ---------- the placement as a whole ---------- */

  /** The state after extraction and the SDK move: the extracted tree, the tree
      after the move, and the SDK name or the error that ended the install there. */
  datatype Staged = Staged(extracted: Tree, tree: Tree, result: Result<string>)

  /** `extractZip` into the temporary directory with the name callback, then
      `fs.move(<temp>/mobilesdk/<os>/<name>, <titaniumDir>/mobilesdk/<os>/<name>)`. */
  function StageSdk(t0: Tree, zip: string, archive: Option<seq<ZipEntry>>, os: string, ti: Path,
                    temp: Path, overwrite: bool): Staged
    requires Apart(temp, ti)
  {
    var o := ExtractSpec(t0, Given(()), Given(PathText(temp)), Given(zip), archive, None,
                         Some(NameHook(os, ti, t0.dirs, overwrite)));
    if o.result.Err? then Staged(o.tree, o.tree, Err(o.result.error))
    else if o.result.value.None? then Staged(o.tree, o.tree, Err(NoSdkInZip))
    else
      var name := o.result.value.value;
      var src := temp + [SdkPrefix, os, name];
      RootsApart(temp, ti, src, SdkDir(ti, os, name));
      match Move(o.tree, src, SdkDir(ti, os, name))
      case Err(e) => Staged(o.tree, o.tree, Err(e))
      case Ok(t1) => Staged(o.tree, t1, Ok(name))
  }

  /** The `finally` removal of the temporary directory, then, after a successful
      install, the removal of the downloaded file unless `keep` is set. */
  function Cleanup(t: Tree, temp: Path, ok: bool, downloaded: Option<Path>, keep: bool): Tree {
    var u := Remove(t, temp);
    if ok && downloaded.Some? && !keep then Remove(u, downloaded.value) else u
  }

  /** How steps 2 and 3 of `install` can end, for the order `order` in which the
      loops visit the module versions. */
  ghost predicate Placement(t0: Tree, zip: string, archive: Option<seq<ZipEntry>>, os: string, ti: Path,
                            temp: Path, overwrite: bool, downloaded: Option<Path>, keep: bool,
                            order: seq<ModuleDir>, r: Result<string>, final: Tree)
    requires Apart(temp, ti)
  {
    Placed(StageSdk(t0, zip, archive, os, ti, temp, overwrite), temp, ti, overwrite, downloaded, keep, order, r, final)
  }

  /** How the install ends after the staging `st`: a failed staging only removes
      the temporary directory; otherwise the module walk follows, then the cleanup. */
  ghost predicate Placed(st: Staged, temp: Path, ti: Path, overwrite: bool, downloaded: Option<Path>, keep: bool,
                         order: seq<ModuleDir>, r: Result<string>, final: Tree)
    requires Apart(temp, ti)
  {
    if st.result.Err? then r == st.result && order == [] && final == Remove(st.tree, temp)
    else
      var w := PlaceModules(st.tree, temp, ti, overwrite, order);
      DistinctDirs(order) && (forall y :: y in order ==> VersionDir(st.tree, temp, y)) &&
      (w.error.None? ==>
         r == st.result && (forall y :: VersionDir(st.tree, temp, y) ==> y in order) &&
         final == Cleanup(w.tree, temp, true, downloaded, keep)) &&
      (w.error.Some? ==> r == Err(w.error.value) && final == Remove(w.tree, temp))
  }

  /** Steps 2 and 3 of `install` on the file system: `zip` is the file to install,
      `archive` what the zip reader finds in it, `ti` the first install path, `temp`
      the fresh temporary name, `downloaded` the downloaded file if there is one.
      Returns the SDK name. */
  method Place(fs: FileSystem, zip: string, archive: Option<seq<ZipEntry>>, os: string, ti: Path,
               temp: Path, overwrite: bool, downloaded: Option<Path>, keep: bool)
    returns (r: Result<string>, ghost order: seq<ModuleDir>)
    requires fs.Valid() && temp != [] && ProperComponents(temp) && Apart(temp, ti)
    requires downloaded.Some? ==> downloaded.value != []
    modifies fs
    ensures fs.Valid()
    ensures Placement(old(fs.tree), zip, archive, os, ti, temp, overwrite, downloaded, keep, order, r, fs.tree)
  {
    ghost var t0 := fs.tree;
    ComponentsOfPathText(temp);
    var hook := NameHook(os, ti, fs.tree.dirs, overwrite);
    var x, calls := ExtractZip(fs, Given(()), Given(PathText(temp)), Given(zip), archive, None, Some(hook));
    order := [];
    if x.Err? {
      fs.RemoveAll(temp);
      return Err(x.error), order;
    }
    if x.value.None? {
      fs.RemoveAll(temp);
      return Err(NoSdkInZip), order;
    }
    var name := x.value.value;
    var src := temp + [SdkPrefix, os, name];
    var dest := SdkDir(ti, os, name);
    RootsApart(temp, ti, src, dest);
    var mv := fs.MoveTo(src, dest);
    if mv.Err? {
      fs.RemoveAll(temp);
      return Err(mv.error), order;
    }
    ghost var t1 := fs.tree;
    ghost var st := StageSdk(t0, zip, archive, os, ti, temp, overwrite);
    assert st == Staged(st.extracted, t1, Ok(name));
    if fs.IsDir(temp + ["modules"]) {
      var res;
      res, order := PlacePlatforms(fs, temp, ti, overwrite, t1);
      if res.Err? {
        fs.RemoveAll(temp);
        return Err(res.error), order;
      }
    } else {
      forall y ensures !VersionDir(t1, temp, y) {
        VersionAncestors(t1, temp, y);
      }
    }
    ghost var walked := fs.tree;
    assert PlaceModules(t1, temp, ti, overwrite, order) == Step(walked, None);
    fs.RemoveAll(temp);
    if downloaded.Some? && !keep {
      fs.RemoveAll(downloaded.value);
    }
    assert fs.tree == Cleanup(walked, temp, true, downloaded, keep);
    assert Placed(st, temp, ti, overwrite, downloaded, keep, order, Ok(name), fs.tree);
    return Ok(name), order;
  }

  /* ---------- what the placement guarantees ---------- */

  /** The SDK an install reports is named by the first matching entry of the
      archive, and it was not installed before unless `overwrite` is set. */
  lemma PlacedSdkName(t0: Tree, zip: string, archive: Option<seq<ZipEntry>>, os: string, ti: Path,
                      temp: Path, overwrite: bool, downloaded: Option<Path>, keep: bool,
                      order: seq<ModuleDir>, r: Result<string>, final: Tree)
    requires Apart(temp, ti) && ProperComponents(temp)
    requires Placement(t0, zip, archive, os, ti, temp, overwrite, downloaded, keep, order, r, final)
    requires r.Ok?
    ensures archive.Some? && FirstName(archive.value, 0, os) == Some(r.value)
    ensures overwrite || SdkDir(ti, os, r.value) !in t0.dirs
  {
    ComponentsOfPathText(temp);
    if archive.Some? {
      NameHookOutcome(t0, temp, archive.value, 0, None, os, ti, t0.dirs, overwrite);
    }
  }

  /** Without `overwrite`, an archive whose first SDK entry names an installed SDK
      is refused, and nothing outside the temporary directory changes. */
  lemma ExistingSdkRefused(t0: Tree, zip: string, entries: seq<ZipEntry>, os: string, ti: Path,
                           temp: Path, downloaded: Option<Path>, keep: bool,
                           order: seq<ModuleDir>, r: Result<string>, final: Tree, q: Path)
    requires Apart(temp, ti) && ProperComponents(temp)
    requires Placement(t0, zip, Some(entries), os, ti, temp, false, downloaded, keep, order, r, final)
    requires FirstName(entries, 0, os).Some? && SdkDir(ti, os, FirstName(entries, 0, os).value) in t0.dirs
    requires Apart(q, temp)
    ensures r.Err?
    ensures SameAt(t0, final, q)
  {
    ComponentsOfPathText(temp);
    var hook := NameHook(os, ti, t0.dirs, false);
    NameHookOutcome(t0, temp, entries, 0, None, os, ti, t0.dirs, false);
    var o := ExtractSpec(t0, Given(()), Given(PathText(temp)), Given(zip), Some(entries), None, Some(hook));
    assert o.result.Err?;
    var st := StageSdk(t0, zip, Some(entries), os, ti, temp, false);
    assert st.result.Err? && st.tree == st.extracted;
    ExtractedFrame(t0, zip, Some(entries), os, ti, temp, false, q);
  }

  /** Extraction into the temporary directory leaves every path apart from it alone. */
  lemma ExtractedFrame(t0: Tree, zip: string, archive: Option<seq<ZipEntry>>, os: string, ti: Path,
                       temp: Path, overwrite: bool, q: Path)
    requires Apart(temp, ti) && ProperComponents(temp) && Apart(q, temp)
    ensures SameAt(t0, StageSdk(t0, zip, archive, os, ti, temp, overwrite).extracted, q)
  {
    ComponentsOfPathText(temp);
    var hook := NameHook(os, ti, t0.dirs, overwrite);
    var o := ExtractSpec(t0, Given(()), Given(PathText(temp)), Given(zip), archive, None, Some(hook));
    assert StageSdk(t0, zip, archive, os, ti, temp, overwrite).extracted == o.tree;
    if archive.Some? {
      ExtractFrame(t0, temp, archive.value, 0, None, Some(hook), q);
    }
  }

  /** Whatever happens, nothing is left inside the temporary directory. */
  lemma TempRemoved(t0: Tree, zip: string, archive: Option<seq<ZipEntry>>, os: string, ti: Path,
                    temp: Path, overwrite: bool, downloaded: Option<Path>, keep: bool,
                    order: seq<ModuleDir>, r: Result<string>, final: Tree, q: Path)
    requires Apart(temp, ti)
    requires Placement(t0, zip, archive, os, ti, temp, overwrite, downloaded, keep, order, r, final)
    requires Under(q, temp)
    ensures q !in final.dirs && q !in final.files
  {
    var st := StageSdk(t0, zip, archive, os, ti, temp, overwrite);
    if st.result.Ok? {
      var w := PlaceModules(st.tree, temp, ti, overwrite, order);
      var u := Remove(w.tree, temp);
      assert q !in u.dirs && q !in u.files;
    }
  }

  /** The SDK move leaves the `modules` directories of both roots alone. */
  lemma SdkMoveFrame(t: Tree, temp: Path, ti: Path, os: string, name: string, q: Path)
    requires WellFormed(t) && Apart(temp, ti)
    requires Under(q, temp + ["modules"]) || Under(q, ti + ["modules"])
    ensures Apart(temp + [SdkPrefix, os, name], SdkDir(ti, os, name))
    ensures Move(t, temp + [SdkPrefix, os, name], SdkDir(ti, os, name)).Ok? ==>
              SameAt(t, Move(t, temp + [SdkPrefix, os, name], SdkDir(ti, os, name)).value, q)
  {
    var src, dest := temp + [SdkPrefix, os, name], SdkDir(ti, os, name);
    RootsApart(temp, ti, src, dest);
    assert "modules" != SdkPrefix;
    if Under(q, temp + ["modules"]) {
      assert q[..|temp|] == temp && q[|temp|] == "modules";
      RootsApart(temp, ti, q, dest);
      DivergeApart(q, src, |temp|);
    } else {
      assert q[..|ti|] == ti && q[|ti|] == "modules";
      RootsApart(temp, ti, src, q);
      DivergeApart(q, dest, |ti|);
    }
    if Move(t, src, dest).Ok? {
      MoveApartFrame(t, src, dest, q);
    }
  }

  /** Paths that differ at a position both have are apart. */
  lemma DivergeApart(p: Path, q: Path, k: nat)
    requires k < |p| && k < |q| && p[k] != q[k]
    ensures Apart(p, q)
  {
  }

  /** A move leaves alone every path apart from both its ends. */
  lemma MoveApartFrame(t: Tree, src: Path, dest: Path, q: Path)
    requires WellFormed(t) && Apart(src, dest) && Apart(q, src) && Apart(q, dest)
    requires Move(t, src, dest).Ok?
    ensures SameAt(t, Move(t, src, dest).value, q)
  {
    MoveDirs(t, src, dest, q);
    MoveFiles(t, src, dest, q);
  }

  /** Extraction and the SDK move keep the tree well-formed. */
  lemma StageWellFormed(t0: Tree, zip: string, archive: Option<seq<ZipEntry>>, os: string, ti: Path,
                        temp: Path, overwrite: bool)
    requires WellFormed(t0) && Apart(temp, ti)
    ensures WellFormed(StageSdk(t0, zip, archive, os, ti, temp, overwrite).extracted)
    ensures WellFormed(StageSdk(t0, zip, archive, os, ti, temp, overwrite).tree)
  {
    var hook := NameHook(os, ti, t0.dirs, overwrite);
    ExtractSpecWellFormed(t0, Given(()), Given(PathText(temp)), Given(zip), archive, None, Some(hook));
    var st := StageSdk(t0, zip, archive, os, ti, temp, overwrite);
    assert st.extracted == ExtractSpec(t0, Given(()), Given(PathText(temp)), Given(zip), archive, None, Some(hook)).tree;
    if st.result.Ok? {
      var src, dest := temp + [SdkPrefix, os, st.result.value], SdkDir(ti, os, st.result.value);
      RootsApart(temp, ti, src, dest);
      MoveWellFormed(st.extracted, src, dest);
    }
  }

  /** Extraction and the SDK move leave the install location's `modules` alone. */
  lemma StageFrame(t0: Tree, zip: string, archive: Option<seq<ZipEntry>>, os: string, ti: Path,
                   temp: Path, overwrite: bool, q: Path)
    requires WellFormed(t0) && Apart(temp, ti) && ProperComponents(temp) && Under(q, ti + ["modules"])
    ensures SameAt(t0, StageSdk(t0, zip, archive, os, ti, temp, overwrite).extracted, q)
    ensures SameAt(t0, StageSdk(t0, zip, archive, os, ti, temp, overwrite).tree, q)
  {
    PrefixTransitive(ti, ti + ["modules"], q);
    RootsApart(temp, ti, temp, q);
    ExtractedFrame(t0, zip, archive, os, ti, temp, overwrite, q);
    StageWellFormed(t0, zip, archive, os, ti, temp, overwrite);
    var st := StageSdk(t0, zip, archive, os, ti, temp, overwrite);
    if st.result.Ok? {
      SdkMoveFrame(st.extracted, temp, ti, os, st.result.value, q);
    }
  }

  /** The downloaded file, when it is removed, does not cover `q`. */
  predicate Spared(q: Path, downloaded: Option<Path>, keep: bool) {
    downloaded.None? || keep || !Under(q, downloaded.value)
  }

  lemma CleanupFrame(t: Tree, temp: Path, ok: bool, downloaded: Option<Path>, keep: bool, q: Path)
    requires !Under(q, temp) && Spared(q, downloaded, keep)
    ensures SameAt(t, Cleanup(t, temp, ok, downloaded, keep), q)
  {
  }

  /** Without `overwrite`, a module version that is installed already is never
      touched, whether the install succeeds or fails. */
  lemma ExistingModuleKept(t0: Tree, zip: string, archive: Option<seq<ZipEntry>>, os: string, ti: Path,
                           temp: Path, downloaded: Option<Path>, keep: bool,
                           order: seq<ModuleDir>, r: Result<string>, final: Tree, y: ModuleDir, q: Path)
    requires WellFormed(t0) && Apart(temp, ti) && ProperComponents(temp)
    requires Placement(t0, zip, archive, os, ti, temp, false, downloaded, keep, order, r, final)
    requires ModulePath(ti, y) in t0.dirs && Under(q, ModulePath(ti, y)) && Spared(q, downloaded, keep)
    ensures SameAt(t0, final, q)
  {
    var d := ModulePath(ti, y);
    assert d[..|ti| + 1] == ti + ["modules"];
    PrefixTransitive(ti + ["modules"], d, q);
    PrefixTransitive(ti, ti + ["modules"], q);
    RootsApart(temp, ti, temp, q);
    StageFrame(t0, zip, archive, os, ti, temp, false, q);
    StageFrame(t0, zip, archive, os, ti, temp, false, d);
    StageWellFormed(t0, zip, archive, os, ti, temp, false);
    var st := StageSdk(t0, zip, archive, os, ti, temp, false);
    if st.result.Ok? {
      var w := PlaceModules(st.tree, temp, ti, false, order);
      if y in order {
        ExistingVersionKept(st.tree, temp, ti, order, y, q);
      } else {
        forall x | x in order ensures Clear(q, temp, ti, x) {
          Separate(temp, ti, y, x, q);
        }
        PlaceModulesFrame(st.tree, temp, ti, false, order, q);
      }
      CleanupFrame(w.tree, temp, w.error.None?, downloaded, keep, q);
    }
  }

  /** After a successful install, each module version of the archive whose
      destination was free, or every one with `overwrite`, is at
      `<titaniumDir>/modules/<platform>/<name>/<version>` with exactly the
      extracted contents. */
  lemma ModuleInstalled(t0: Tree, zip: string, archive: Option<seq<ZipEntry>>, os: string, ti: Path,
                        temp: Path, overwrite: bool, downloaded: Option<Path>, keep: bool,
                        order: seq<ModuleDir>, r: Result<string>, final: Tree, y: ModuleDir, s: seq<string>)
    requires WellFormed(t0) && Apart(temp, ti) && ProperComponents(temp)
    requires Placement(t0, zip, archive, os, ti, temp, overwrite, downloaded, keep, order, r, final)
    requires r.Ok?
    requires VersionDir(StageSdk(t0, zip, archive, os, ti, temp, overwrite).extracted, temp, y)
    requires overwrite || ModulePath(ti, y) !in t0.dirs
    requires Spared(ModulePath(ti, y) + s, downloaded, keep)
    ensures CopiedAt(StageSdk(t0, zip, archive, os, ti, temp, overwrite).extracted, final,
                     ModulePath(temp, y), ModulePath(ti, y), s)
  {
    var st := StageSdk(t0, zip, archive, os, ti, temp, overwrite);
    var src, dest := ModulePath(temp, y), ModulePath(ti, y);
    assert src[..|temp| + 1] == temp + ["modules"] && dest[..|ti| + 1] == ti + ["modules"];
    assert Under(src + s, src);
    PrefixTransitive(temp + ["modules"], src, src + s);
    StageWellFormed(t0, zip, archive, os, ti, temp, overwrite);
    SdkMoveFrame(st.extracted, temp, ti, os, st.result.value, src);
    SdkMoveFrame(st.extracted, temp, ti, os, st.result.value, src + s);
    StageFrame(t0, zip, archive, os, ti, temp, overwrite, dest);
    ModulePlacedAfterStage(st, ti, temp, overwrite, downloaded, keep, order, r, final, y, s);
  }

  /** The module walk and the cleanup put at a placed version's destination what
      its source held after the staging. */
  lemma ModulePlacedAfterStage(st: Staged, ti: Path, temp: Path, overwrite: bool,
                               downloaded: Option<Path>, keep: bool, order: seq<ModuleDir>,
                               r: Result<string>, final: Tree, y: ModuleDir, s: seq<string>)
    requires WellFormed(st.tree) && Apart(temp, ti)
    requires Placed(st, temp, ti, overwrite, downloaded, keep, order, r, final)
    requires r.Ok? && VersionDir(st.tree, temp, y)
    requires overwrite || ModulePath(ti, y) !in st.tree.dirs
    requires Spared(ModulePath(ti, y) + s, downloaded, keep)
    ensures CopiedAt(st.tree, final, ModulePath(temp, y), ModulePath(ti, y), s)
  {
    var dest := ModulePath(ti, y);
    VersionMoved(st.tree, temp, ti, overwrite, order, y, s);
    var w := PlaceModules(st.tree, temp, ti, overwrite, order);
    assert (dest + s)[..|ti|] == ti;
    RootsApart(temp, ti, temp, dest + s);
    CleanupFrame(w.tree, temp, true, downloaded, keep, dest + s);
  }

  /** The module walk never touches the SDK's install directory. */
  lemma SdkClear(temp: Path, ti: Path, os: string, name: string, s: seq<string>, x: ModuleDir)
    requires Apart(temp, ti)
    ensures Clear(SdkDir(ti, os, name) + s, temp, ti, x)
  {
    var q := SdkDir(ti, os, name) + s;
    assert q[..|ti|] == ti && q[|ti|] == SdkPrefix;
    assert ModulePath(ti, x)[|ti|] == "modules";
    RootsApart(temp, ti, ModulePath(temp, x), q);
  }

  /** After a successful install the SDK directory
      `<titaniumDir>/mobilesdk/<os>/<name>` holds exactly what the archive put
      under `mobilesdk/<os>/<name>`. */
  lemma SdkInstalled(t0: Tree, zip: string, archive: Option<seq<ZipEntry>>, os: string, ti: Path,
                     temp: Path, overwrite: bool, downloaded: Option<Path>, keep: bool,
                     order: seq<ModuleDir>, r: Result<string>, final: Tree, s: seq<string>)
    requires WellFormed(t0) && Apart(temp, ti)
    requires Placement(t0, zip, archive, os, ti, temp, overwrite, downloaded, keep, order, r, final)
    requires r.Ok? && Spared(SdkDir(ti, os, r.value) + s, downloaded, keep)
    ensures CopiedAt(StageSdk(t0, zip, archive, os, ti, temp, overwrite).extracted, final,
                     temp + [SdkPrefix, os, r.value], SdkDir(ti, os, r.value), s)
  {
    var st := StageSdk(t0, zip, archive, os, ti, temp, overwrite);
    StageMoved(t0, zip, archive, os, ti, temp, overwrite, s);
    StageWellFormed(t0, zip, archive, os, ti, temp, overwrite);
    SdkKeptAfterStage(st, os, ti, temp, overwrite, downloaded, keep, order, r, final, s);
    CopiedThenSame(st.extracted, st.tree, final, temp + [SdkPrefix, os, r.value], SdkDir(ti, os, r.value), s);
  }

  /** The SDK move puts at the SDK's install directory what was extracted for it. */
  lemma StageMoved(t0: Tree, zip: string, archive: Option<seq<ZipEntry>>, os: string, ti: Path,
                   temp: Path, overwrite: bool, s: seq<string>)
    requires WellFormed(t0) && Apart(temp, ti)
    requires StageSdk(t0, zip, archive, os, ti, temp, overwrite).result.Ok?
    ensures var st := StageSdk(t0, zip, archive, os, ti, temp, overwrite);
            CopiedAt(st.extracted, st.tree, temp + [SdkPrefix, os, st.result.value], SdkDir(ti, os, st.result.value), s)
  {
    StageWellFormed(t0, zip, archive, os, ti, temp, overwrite);
    var st := StageSdk(t0, zip, archive, os, ti, temp, overwrite);
    var src, dest := temp + [SdkPrefix, os, st.result.value], SdkDir(ti, os, st.result.value);
    RootsApart(temp, ti, src, dest);
    MoveDirs(st.extracted, src, dest, dest + s);
    MoveFiles(st.extracted, src, dest, dest + s);
    assert (dest + s)[|dest|..] == s;
    assert Under(dest + s, dest);
  }

  /** The module walk and the cleanup leave the installed SDK alone. */
  lemma SdkKeptAfterStage(st: Staged, os: string, ti: Path, temp: Path, overwrite: bool,
                          downloaded: Option<Path>, keep: bool,
                          order: seq<ModuleDir>, r: Result<string>, final: Tree, s: seq<string>)
    requires WellFormed(st.tree) && Apart(temp, ti)
    requires Placed(st, temp, ti, overwrite, downloaded, keep, order, r, final)
    requires r.Ok? && Spared(SdkDir(ti, os, r.value) + s, downloaded, keep)
    ensures SameAt(st.tree, final, SdkDir(ti, os, r.value) + s)
  {
    var q := SdkDir(ti, os, r.value) + s;
    forall x | x in order ensures Clear(q, temp, ti, x) {
      SdkClear(temp, ti, os, r.value, s, x);
    }
    PlaceModulesFrame(st.tree, temp, ti, overwrite, order, q);
    var w := PlaceModules(st.tree, temp, ti, overwrite, order);
    assert q[..|ti|] == ti;
    RootsApart(temp, ti, temp, q);
    CleanupFrame(w.tree, temp, true, downloaded, keep, q);
  }

  lemma CopiedThenSame(t: Tree, u: Tree, v: Tree, src: Path, dest: Path, s: seq<string>)
    requires CopiedAt(t, u, src, dest, s) && SameAt(u, v, dest + s)
    ensures CopiedAt(t, v, src, dest, s)
  {
  }
}
