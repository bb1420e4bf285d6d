/** The part of the file system the installer touches, as a tree of paths: the
    directories that exist and the regular files with their permission modes, and
    the `fs-extra` operations the installer performs on it. */
module Disk {
  import opened Base
  import opened Paths

  datatype Tree = Tree(dirs: set<Path>, files: map<Path, nat>)

  /** `p` is `q` or lies inside it. */
  predicate Under(p: Path, q: Path) {
    IsPrefix(q, p)
  }

  /** The root exists, nothing is both a directory and a file, and the parent of
      everything but the root is a directory. */
  ghost predicate WellFormed(t: Tree) {
    [] in t.dirs &&
    (forall p :: p in t.dirs ==> p !in t.files) &&
    (forall p :: p in t.dirs && p != [] ==> Dirname(p) in t.dirs) &&
    (forall p :: p in t.files ==> p != [] && Dirname(p) in t.dirs)
  }

  /** Every ancestor of a path in a well-formed tree is a directory. */
  lemma {:induction false} AncestorsAreDirs(t: Tree, p: Path, k: nat)
    requires WellFormed(t) && (p in t.dirs || p in t.files) && k < |p|
    ensures p[..k] in t.dirs
    decreases |p| - k
  {
    var parent := Dirname(p);
    assert parent in t.dirs;
    if k < |parent| {
      AncestorsAreDirs(t, parent, k);
      assert parent[..k] == p[..k];
    } else {
      assert parent == p[..k];
    }
  }

  predicate FilePrefix(t: Tree, p: Path) {
    exists k :: 0 <= k <= |p| && p[..k] in t.files
  }

  /** `fs.mkdirp(p)`: creates `p` and its missing ancestors. When one of them is a
      file the call fails; the installer ignores that failure, so the tree is then
      left as it was. */
  function Mkdirp(t: Tree, p: Path): (r: Tree)
    ensures r.files == t.files && t.dirs <= r.dirs
    ensures !FilePrefix(t, p) ==> forall k :: 0 <= k <= |p| ==> p[..k] in r.dirs
    ensures FilePrefix(t, p) ==> r == t
    ensures forall q :: q in r.dirs && q !in t.dirs ==> IsPrefix(q, p)
  {
    if FilePrefix(t, p) then t
    else Tree(t.dirs + (set k | 0 <= k <= |p| :: p[..k]), t.files)
  }

  lemma MkdirpWellFormed(t: Tree, p: Path)
    requires WellFormed(t)
    ensures WellFormed(Mkdirp(t, p))
  {
    var r := Mkdirp(t, p);
    if !FilePrefix(t, p) {
      forall q | q in r.dirs && q != [] ensures Dirname(q) in r.dirs {
        if q !in t.dirs {
          assert Dirname(q) == p[..|q| - 1];
        }
      }
      forall q | q in r.dirs ensures q !in r.files {
        if q !in t.dirs {
          assert q == p[..|q|];
        }
      }
    }
  }

  /** Writing a regular file with `fs.createWriteStream(p, { mode })`: a directory
      in the way or a parent that is not a directory makes the write fail; an
      existing file is truncated and keeps its mode. */
  function WriteFile(t: Tree, p: Path, mode: nat): (r: Result<Tree>)
    ensures r.Ok? <==> p !in t.dirs && p != [] && Dirname(p) in t.dirs
    ensures r.Err? ==> r.error == (if p in t.dirs then IsADirectory else NotADirectory)
    ensures r.Ok? ==> r.value.dirs == t.dirs && p in r.value.files &&
                      r.value.files[p] == (if p in t.files then t.files[p] else mode) &&
                      forall q :: q != p ==> ((q in r.value.files <==> q in t.files) &&
                                             (q in t.files ==> r.value.files[q] == t.files[q]))
  {
    if p in t.dirs then Err(IsADirectory)
    else if p == [] || Dirname(p) !in t.dirs then Err(NotADirectory)
    else Ok(Tree(t.dirs, t.files[p := if p in t.files then t.files[p] else mode]))
  }

  lemma WriteFileWellFormed(t: Tree, p: Path, mode: nat)
    requires WellFormed(t) && WriteFile(t, p, mode).Ok?
    ensures WellFormed(WriteFile(t, p, mode).value)
  {
  }

  /** `fs.remove(p)`: `p` and everything inside it disappear. */
  function Remove(t: Tree, p: Path): (r: Tree)
    ensures forall q :: q in r.dirs <==> q in t.dirs && !Under(q, p)
    ensures forall q :: q in r.files <==> q in t.files && !Under(q, p)
    ensures forall q :: q in r.files ==> r.files[q] == t.files[q]
  {
    Tree(set q | q in t.dirs && !Under(q, p), map q | q in t.files && !Under(q, p) :: t.files[q])
  }

  lemma RemoveWellFormed(t: Tree, p: Path)
    requires WellFormed(t) && p != []
    ensures WellFormed(Remove(t, p))
  {
    var r := Remove(t, p);
    forall q | q in r.dirs && q != [] ensures Dirname(q) in r.dirs {
      assert !Under(Dirname(q), p);
    }
    forall q | q in r.files ensures Dirname(q) in r.dirs {
      assert !Under(Dirname(q), p);
    }
  }

  predicate StrictAncestor(q: Path, p: Path) {
    IsPrefix(q, p) && q != p
  }

  /** Where `fs.move(from, to)` puts the path `q` that lies inside `from`. */
  function Rebase(q: Path, from: Path, to: Path): Path
    requires Under(q, from)
  {
    to + q[|from|..]
  }

  /** Where a path inside `to` came from. */
  function Origin(q: Path, from: Path, to: Path): Path {
    if Under(q, to) then from + q[|to|..] else q
  }

  /** `fs.move(src, dest, { overwrite: true })`: a missing source fails with ENOENT;
      otherwise the parent of `dest` is created, whatever is at `dest` is removed,
      and `src` with everything inside it is renamed to `dest`. */
  function Move(t: Tree, src: Path, dest: Path): (r: Result<Tree>)
    requires !Under(src, dest) && !Under(dest, src)
    ensures r.Err? ==> r.error == MoveSourceMissing || r.error == NotADirectory
    ensures src !in t.dirs && src !in t.files ==> r == Err(MoveSourceMissing)
  {
    if src !in t.dirs && src !in t.files then Err(MoveSourceMissing)
    else
      var t1 := Mkdirp(t, Dirname(dest));
      if Dirname(dest) !in t1.dirs then Err(NotADirectory)
      else
        var t2 := Remove(t1, dest);
        var keys := (set q | q in t2.files && !Under(q, src)) +
                    (set q | q in t2.files && Under(q, src) :: Rebase(q, src, dest));
        Ok(Tree(
          (set q | q in t2.dirs && !Under(q, src)) +
          (set q | q in t2.dirs && Under(q, src) :: Rebase(q, src, dest)),
          map q | q in keys :: var o := Origin(q, src, dest); if o in t2.files then t2.files[o] else 0))
  }

  lemma OriginOfRebase(q: Path, src: Path, dest: Path)
    requires Under(q, src) && !Under(src, dest) && !Under(dest, src)
    ensures Under(Rebase(q, src, dest), dest) && !Under(Rebase(q, src, dest), src)
    ensures Origin(Rebase(q, src, dest), src, dest) == q
  {
    var r := Rebase(q, src, dest);
    assert r[..|dest|] == dest;
    assert r[|dest|..] == q[|src|..];
    assert q == src + q[|src|..];
  }

  lemma RebaseOfOrigin(q: Path, src: Path, dest: Path)
    requires Under(q, dest) && !Under(src, dest) && !Under(dest, src)
    ensures Under(Origin(q, src, dest), src)
    ensures Rebase(Origin(q, src, dest), src, dest) == q
  {
    var o := Origin(q, src, dest);
    assert o[..|src|] == src;
    assert o[|src|..] == q[|dest|..];
    assert q == dest + q[|dest|..];
  }

  lemma PrefixTransitive(a: Path, b: Path, c: Path)
    requires IsPrefix(a, b) && IsPrefix(b, c)
    ensures IsPrefix(a, c)
  {
    assert c[..|a|] == c[..|b|][..|a|];
  }

  lemma PrefixesComparable(a: Path, b: Path, c: Path)
    requires IsPrefix(a, c) && IsPrefix(b, c)
    ensures IsPrefix(a, b) || IsPrefix(b, a)
  {
    if |a| <= |b| {
      assert b[..|a|] == c[..|a|];
    } else {
      assert a[..|b|] == c[..|b|];
    }
  }

  /** A move succeeds exactly when the source exists and no ancestor of the
      destination is a file. */
  lemma MoveSucceeds(t: Tree, src: Path, dest: Path)
    requires WellFormed(t) && !Under(src, dest) && !Under(dest, src)
    ensures Move(t, src, dest).Ok? <==> (src in t.dirs || src in t.files) && !FilePrefix(t, Dirname(dest))
  {
    var d := Dirname(dest);
    assert d[..|d|] == d;
    if (src in t.dirs || src in t.files) && FilePrefix(t, d) {
      var k :| 0 <= k <= |d| && d[..k] in t.files;
      if d in t.dirs && k < |d| {
        AncestorsAreDirs(t, d, k);
      }
    }
  }

  /** The directories after a move. */
  lemma MoveDirs(t: Tree, src: Path, dest: Path, q: Path)
    requires WellFormed(t) && !Under(src, dest) && !Under(dest, src)
    requires Move(t, src, dest).Ok?
    ensures q in Move(t, src, dest).value.dirs <==>
            if Under(q, dest) then Origin(q, src, dest) in t.dirs
            else (q in t.dirs && !Under(q, src)) || StrictAncestor(q, dest)
  {
    var d := Dirname(dest);
    var t1 := Mkdirp(t, d);
    var t2 := Remove(t1, dest);
    var r := Move(t, src, dest).value;
    assert r.dirs == (set x | x in t2.dirs && !Under(x, src)) +
                     (set x | x in t2.dirs && Under(x, src) :: Rebase(x, src, dest));
    MoveSucceeds(t, src, dest);
    assert d == dest[..|dest| - 1];
    if Under(q, dest) {
      var o := Origin(q, src, dest);
      RebaseOfOrigin(q, src, dest);
      if o in t.dirs {
        if Under(o, dest) {
          PrefixesComparable(src, dest, o);
        }
        assert o in t2.dirs;
      }
      if q in r.dirs {
        if q in t2.dirs {
          assert false;
        } else {
          var x :| x in t2.dirs && Under(x, src) && Rebase(x, src, dest) == q;
          OriginOfRebase(x, src, dest);
          if x !in t.dirs {
            assert IsPrefix(x, d);
            PrefixTransitive(x, d, dest);
            PrefixesComparable(src, dest, x);
            assert false;
          }
        }
      }
    } else {
      if StrictAncestor(q, dest) {
        assert q == d[..|q|];
        if Under(q, src) {
          PrefixTransitive(src, q, dest);
        }
      }
      if q in t1.dirs && q !in t.dirs {
        assert IsPrefix(q, d);
        PrefixTransitive(q, d, dest);
      }
    }
  }

  /** The files after a move, with their modes. */
  lemma MoveFiles(t: Tree, src: Path, dest: Path, q: Path)
    requires WellFormed(t) && !Under(src, dest) && !Under(dest, src)
    requires Move(t, src, dest).Ok?
    ensures q in Move(t, src, dest).value.files <==>
            if Under(q, dest) then Origin(q, src, dest) in t.files
            else q in t.files && !Under(q, src)
    ensures q in Move(t, src, dest).value.files ==>
            Origin(q, src, dest) in t.files &&
            Move(t, src, dest).value.files[q] == t.files[Origin(q, src, dest)]
  {
    var d := Dirname(dest);
    var t1 := Mkdirp(t, d);
    var t2 := Remove(t1, dest);
    var r := Move(t, src, dest).value;
    var keys := (set x | x in t2.files && !Under(x, src)) +
                (set x | x in t2.files && Under(x, src) :: Rebase(x, src, dest));
    assert r.files.Keys == keys;
    assert t1.files == t.files;
    if Under(q, dest) {
      var o := Origin(q, src, dest);
      RebaseOfOrigin(q, src, dest);
      if o in t.files {
        if Under(o, dest) {
          PrefixesComparable(src, dest, o);
        }
        assert o in t2.files;
        assert q in keys;
      }
      if q in keys {
        if q in t2.files {
          assert false;
        } else {
          var x :| x in t2.files && Under(x, src) && Rebase(x, src, dest) == q;
          OriginOfRebase(x, src, dest);
        }
      }
    } else {
      forall x | x in t2.files && Under(x, src) ensures Rebase(x, src, dest) != q {
        OriginOfRebase(x, src, dest);
      }
      assert Origin(q, src, dest) == q;
    }
  }

  /** A move keeps the tree well-formed. */
  lemma MoveWellFormed(t: Tree, src: Path, dest: Path)
    requires WellFormed(t) && !Under(src, dest) && !Under(dest, src)
    requires Move(t, src, dest).Ok?
    ensures WellFormed(Move(t, src, dest).value)
  {
    var r := Move(t, src, dest).value;
    var d := Dirname(dest);
    MoveSucceeds(t, src, dest);
    MoveDirs(t, src, dest, []);
    forall q | q in r.dirs ensures q !in r.files {
      MoveDirs(t, src, dest, q);
      MoveFiles(t, src, dest, q);
    }
    forall q | q in r.dirs && q != [] ensures Dirname(q) in r.dirs {
      MoveDirs(t, src, dest, q);
      ParentAfterMove(t, src, dest, q);
      MoveDirs(t, src, dest, Dirname(q));
    }
    forall q | q in r.files ensures q != [] && Dirname(q) in r.dirs {
      MoveFiles(t, src, dest, q);
      ParentAfterMove(t, src, dest, q);
      MoveDirs(t, src, dest, Dirname(q));
    }
  }

  /** How the parent of a path relates to `src` and `dest`. */
  lemma ParentAfterMove(t: Tree, src: Path, dest: Path, q: Path)
    requires !Under(src, dest) && !Under(dest, src) && q != []
    ensures Under(q, dest) && q != dest ==>
              Under(Dirname(q), dest) && Origin(Dirname(q), src, dest) == Dirname(Origin(q, src, dest))
    ensures q == dest ==> StrictAncestor(Dirname(q), dest) && !Under(Dirname(q), dest)
    ensures !Under(q, dest) ==> !Under(Dirname(q), dest)
    ensures !Under(q, src) && Under(Dirname(q), src) ==> false
    ensures StrictAncestor(q, dest) ==> StrictAncestor(Dirname(q), dest)
  {
    var p := Dirname(q);
    if Under(q, dest) && q != dest {
      assert p[..|dest|] == q[..|dest|];
      assert Origin(q, src, dest) == src + q[|dest|..];
      assert q[|dest|..] != [];
      assert Dirname(src + q[|dest|..]) == src + p[|dest|..];
    }
    if Under(p, dest) {
      assert q[..|dest|] == p[..|dest|];
    }
    if Under(p, src) {
      assert q[..|src|] == p[..|src|];
    }
    if StrictAncestor(q, dest) {
      assert p == dest[..|p|];
    }
  }

  /** The file system the installer works on. */
  class FileSystem {
    var tree: Tree

    ghost predicate Valid()
      reads this
    {
      WellFormed(tree)
    }

    constructor (t: Tree)
      requires WellFormed(t)
      ensures Valid() && tree == t
    {
      tree := t;
    }

    /** `fs.existsSync(p)` */
    predicate Exists(p: Path)
      reads this
    {
      p in tree.dirs || p in tree.files
    }

    /** `isDir(p)` */
    predicate IsDir(p: Path)
      reads this
    {
      p in tree.dirs
    }

    /** `isFile(p)` */
    predicate IsFile(p: Path)
      reads this
    {
      p in tree.files
    }

    /** `fs.readdirSync(p)`: the names directly inside `p`. */
    function Children(p: Path): (r: set<string>)
      reads this
      ensures forall n :: n in r <==> Exists(p + [n])
    {
      var names := (set q | q in tree.dirs && |q| == |p| + 1 && q[..|p|] == p :: q[|p|]) +
                   (set q | q in tree.files && |q| == |p| + 1 && q[..|p|] == p :: q[|p|]);
      assert forall n :: Exists(p + [n]) ==> n in names by {
        forall n | Exists(p + [n]) ensures n in names {
          var q := p + [n];
          assert q[..|p|] == p && q[|p|] == n;
        }
      }
      assert forall n :: n in names ==> Exists(p + [n]) by {
        forall n | n in names ensures Exists(p + [n]) {
          var q :| (q in tree.dirs || q in tree.files) && |q| == |p| + 1 && q[..|p|] == p && q[|p|] == n;
          assert q == p + [n];
        }
      }
      names
    }

    method MakeDirs(p: Path)
      requires Valid()
      modifies this
      ensures Valid() && tree == Mkdirp(old(tree), p)
    {
      MkdirpWellFormed(tree, p);
      tree := Mkdirp(tree, p);
    }

    method Write(p: Path, mode: nat) returns (r: Result<()>)
      requires Valid()
      modifies this
      ensures Valid()
      ensures r.Err? <==> WriteFile(old(tree), p, mode).Err?
      ensures r.Err? ==> r.error == WriteFile(old(tree), p, mode).error && tree == old(tree)
      ensures r.Ok? ==> tree == WriteFile(old(tree), p, mode).value
    {
      var w := WriteFile(tree, p, mode);
      if w.Err? {
        return Err(w.error);
      }
      WriteFileWellFormed(tree, p, mode);
      tree := w.value;
      return Ok(());
    }

    /** `fs.move(src, dest, { overwrite: true })` */
    method MoveTo(src: Path, dest: Path) returns (r: Result<()>)
      requires Valid() && !Under(src, dest) && !Under(dest, src)
      modifies this
      ensures Valid()
      ensures r.Err? <==> Move(old(tree), src, dest).Err?
      ensures r.Err? ==> r.error == Move(old(tree), src, dest).error && tree == old(tree)
      ensures r.Ok? ==> tree == Move(old(tree), src, dest).value
    {
      var m := Move(tree, src, dest);
      if m.Err? {
        return Err(m.error);
      }
      MoveWellFormed(tree, src, dest);
      tree := m.value;
      return Ok(());
    }

    /** `fs.remove(p)` */
    method RemoveAll(p: Path)
      requires Valid() && p != []
      modifies this
      ensures Valid() && tree == Remove(old(tree), p)
    {
      RemoveWellFormed(tree, p);
      tree := Remove(tree, p);
    }
  }
}
