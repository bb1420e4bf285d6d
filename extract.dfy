/** `extractZip`: argument validation, then one step per zip entry. Each step calls
    the `onEntry` callback with the entry name, its 1-based index and the entry
    count, then creates the entry: a name ending in `/` is a directory, anything
    else a file whose mode is the upper half of the entry's external attributes.
    A failing callback or a failing write stops the extraction. */
module Extract {
  import opened Base
  import opened Text
  import opened Paths
  import opened Disk

  datatype ZipEntry = ZipEntry(fileName: string, externalFileAttributes: nat)

  /** `entry.externalFileAttributes >>> 16`: the operand is read as an unsigned
      32-bit integer, then shifted. */
  function Mode(attrs: nat): (r: nat)
    ensures r < 0x1_0000
  {
    (attrs % 0x1_0000_0000) / 0x1_0000
  }

  /** The mode is the upper 16 bits: shifting it back and adding the lower 16 bits
      gives the attributes again. */
  lemma ModeIsUpperHalf(attrs: nat)
    requires attrs < 0x1_0000_0000
    ensures Mode(attrs) * 0x1_0000 + attrs % 0x1_0000 == attrs
  {
  }

  /** `/\/$/.test(name)` */
  predicate IsDirEntry(name: string) {
    name != "" && name[|name| - 1] == '/'
  }

  /** `path.join(dest, name)` */
  function EntryPath(dest: Path, name: string): Path {
    dest + Components(name)
  }

  /** A callback invocation: `onEntry(fileName, idx, total)`. */
  datatype Call = Call(fileName: string, idx: nat, total: nat)

  /** The `onEntry` callback, threading the caller's own state; an `Err` is a throw. */
  type Hook<!S> = (S, string, nat, nat) -> Result<S>

  datatype Step = Step(tree: Tree, error: Option<Error>)

  /** What one entry does to the tree. */
  function ApplyEntry(t: Tree, dest: Path, e: ZipEntry): (r: Step)
    ensures IsDirEntry(e.fileName) ==> r.error == None
    ensures IsDirEntry(e.fileName) && !FilePrefix(t, EntryPath(dest, e.fileName)) ==>
              EntryPath(dest, e.fileName) in r.tree.dirs
    ensures !IsDirEntry(e.fileName) && r.error == None ==>
              var full := EntryPath(dest, e.fileName);
              full in r.tree.files &&
              r.tree.files[full] == (if full in t.files then t.files[full] else Mode(e.externalFileAttributes))
    ensures r.tree.files.Keys <= t.files.Keys + {EntryPath(dest, e.fileName)}
    ensures t.dirs <= r.tree.dirs
  {
    var full := EntryPath(dest, e.fileName);
    if IsDirEntry(e.fileName) then
      assert full[..|full|] == full;
      Step(Mkdirp(t, full), None)
    else
      var t1 := Mkdirp(t, Dirname(full));
      match WriteFile(t1, full, Mode(e.externalFileAttributes))
      case Ok(t2) => Step(t2, None)
      case Err(err) => Step(t1, Some(err))
  }

  lemma ApplyEntryWellFormed(t: Tree, dest: Path, e: ZipEntry)
    requires WellFormed(t)
    ensures WellFormed(ApplyEntry(t, dest, e).tree)
  {
    var full := EntryPath(dest, e.fileName);
    if IsDirEntry(e.fileName) {
      MkdirpWellFormed(t, full);
    } else {
      var t1 := Mkdirp(t, Dirname(full));
      MkdirpWellFormed(t, Dirname(full));
      if WriteFile(t1, full, Mode(e.externalFileAttributes)).Ok? {
        WriteFileWellFormed(t1, full, Mode(e.externalFileAttributes));
      }
    }
  }

  /** How an extraction ends: its result, the tree it leaves, and the callback
      invocations it made. */
  datatype Outcome<S> = Outcome(result: Result<S>, tree: Tree, calls: seq<Call>)

  /** The entries from index `i` on. */
  function ExtractFrom<S>(t: Tree, dest: Path, entries: seq<ZipEntry>, i: nat, state: S,
                          hook: Option<Hook<S>>): Outcome<S>
    requires i <= |entries|
    decreases |entries| - i
  {
    if i == |entries| then Outcome(Ok(state), t, [])
    else
      var name := entries[i].fileName;
      var calls := if hook.Some? then [Call(name, i + 1, |entries|)] else [];
      var called := if hook.Some? then hook.value(state, name, i + 1, |entries|) else Ok(state);
      if called.Err? then Outcome(Err(called.error), t, calls)
      else
        var step := ApplyEntry(t, dest, entries[i]);
        if step.error.Some? then Outcome(Err(step.error.value), step.tree, calls)
        else
          var rest := ExtractFrom(step.tree, dest, entries, i + 1, called.value, hook);
          Outcome(rest.result, rest.tree, calls + rest.calls)
  }

  /** `extractZip({ dest, file, onEntry })`. `params` is given when it is an object;
      `archive` is what the zip reader finds in the file, or `None` when it cannot
      open it. */
  function ExtractSpec<S>(t: Tree, params: Arg<()>, dest: Arg<string>, file: Arg<string>,
                          archive: Option<seq<ZipEntry>>, state: S, hook: Option<Hook<S>>): Outcome<S>
  {
    if !params.Given? then Outcome(Err(ParamsNotObject), t, [])
    else if !IsNonEmptyString(dest) then Outcome(Err(DestNotString), t, [])
    else if !IsNonEmptyString(file) then Outcome(Err(ZipFileNotString), t, [])
    else
      var f := Components(file.value);
      if f !in t.dirs && f !in t.files then Outcome(Err(ZipMissing), t, [])
      else if f !in t.files then Outcome(Err(ZipNotFile), t, [])
      else if archive.None? then Outcome(Err(InvalidZip), t, [])
      else ExtractFrom(t, Components(dest.value), archive.value, 0, state, hook)
  }

  /** Extraction keeps the file system well-formed. */
  lemma ExtractSpecWellFormed<S>(t: Tree, params: Arg<()>, dest: Arg<string>, file: Arg<string>,
                                 archive: Option<seq<ZipEntry>>, state: S, hook: Option<Hook<S>>)
    requires WellFormed(t)
    ensures WellFormed(ExtractSpec(t, params, dest, file, archive, state, hook).tree)
  {
    if params.Given? && IsNonEmptyString(dest) && IsNonEmptyString(file) && archive.Some? {
      ExtractWellFormed(t, Components(dest.value), archive.value, 0, state, hook);
    }
  }

  /** The checks run in the order params, destination, file name, existence,
      regular file, archive; a failed check leaves the tree alone and calls nothing. */
  lemma ValidationOrder<S>(t: Tree, params: Arg<()>, dest: Arg<string>, file: Arg<string>,
                           archive: Option<seq<ZipEntry>>, state: S, hook: Option<Hook<S>>)
    ensures var o := ExtractSpec(t, params, dest, file, archive, state, hook);
            (!params.Given? ==> o == Outcome(Err(ParamsNotObject), t, [])) &&
            (params.Given? && !IsNonEmptyString(dest) ==> o == Outcome(Err(DestNotString), t, [])) &&
            (params.Given? && IsNonEmptyString(dest) && !IsNonEmptyString(file) ==>
               o == Outcome(Err(ZipFileNotString), t, [])) &&
            (params.Given? && IsNonEmptyString(dest) && IsNonEmptyString(file) ==>
               var f := Components(file.value);
               (f !in t.dirs && f !in t.files ==> o == Outcome(Err(ZipMissing), t, [])) &&
               (f in t.dirs && f !in t.files ==> o == Outcome(Err(ZipNotFile), t, [])) &&
               (f in t.files && archive.None? ==> o == Outcome(Err(InvalidZip), t, [])) &&
               (f in t.files && archive.Some? ==>
                  o == ExtractFrom(t, Components(dest.value), archive.value, 0, state, hook)))
  {
  }

  /** The callback sees the entries in order, with indices counting from 1 and the
      entry count; on success every entry was announced, and on a failure the last
      announced entry is the one that failed. */
  lemma {:induction false} ExtractCalls<S>(t: Tree, dest: Path, entries: seq<ZipEntry>, i: nat,
                                           state: S, hook: Hook<S>)
    requires i <= |entries|
    ensures var o := ExtractFrom(t, dest, entries, i, state, Some(hook));
            i + |o.calls| <= |entries| &&
            (forall j :: 0 <= j < |o.calls| ==>
               o.calls[j] == Call(entries[i + j].fileName, i + j + 1, |entries|)) &&
            (o.result.Ok? ==> i + |o.calls| == |entries|) &&
            (o.result.Err? ==> |o.calls| >= 1)
    decreases |entries| - i
  {
    if i < |entries| {
      var name := entries[i].fileName;
      var called := hook(state, name, i + 1, |entries|);
      if called.Ok? {
        var step := ApplyEntry(t, dest, entries[i]);
        if step.error.None? {
          var rest := ExtractFrom(step.tree, dest, entries, i + 1, called.value, Some(hook));
          ExtractCalls(step.tree, dest, entries, i + 1, called.value, hook);
          var o := ExtractFrom(t, dest, entries, i, state, Some(hook));
          assert o.calls == [Call(name, i + 1, |entries|)] + rest.calls;
          forall j | 0 < j < |o.calls|
            ensures o.calls[j] == Call(entries[i + j].fileName, i + j + 1, |entries|)
          {
            assert o.calls[j] == rest.calls[j - 1];
          }
        }
      }
    }
  }

  /** A throwing callback stops the extraction before its entry is written: the
      tree is the one the earlier entries produced. */
  lemma {:induction false} ThrowStopsBeforeEntry<S>(t: Tree, dest: Path, entries: seq<ZipEntry>,
                                                    state: S, hook: Hook<S>)
    requires |entries| >= 1 && hook(state, entries[0].fileName, 1, |entries|).Err?
    ensures ExtractFrom(t, dest, entries, 0, state, Some(hook)) ==
            Outcome(Err(hook(state, entries[0].fileName, 1, |entries|).error), t,
                    [Call(entries[0].fileName, 1, |entries|)])
  {
  }

  /** Extraction keeps the tree well-formed, whether it succeeds or stops early. */
  lemma {:induction false} ExtractWellFormed<S>(t: Tree, dest: Path, entries: seq<ZipEntry>, i: nat,
                                                state: S, hook: Option<Hook<S>>)
    requires WellFormed(t) && i <= |entries|
    ensures WellFormed(ExtractFrom(t, dest, entries, i, state, hook).tree)
    decreases |entries| - i
  {
    if i < |entries| {
      var called := if hook.Some? then hook.value(state, entries[i].fileName, i + 1, |entries|) else Ok(state);
      if called.Ok? {
        ApplyEntryWellFormed(t, dest, entries[i]);
        var step := ApplyEntry(t, dest, entries[i]);
        if step.error.None? {
          ExtractWellFormed(step.tree, dest, entries, i + 1, called.value, hook);
        }
      }
    }
  }

  lemma AppendAssociative<T>(a: seq<T>, b: seq<T>, c: seq<T>)
    ensures a + (b + c) == (a + b) + c
  {
  }

  /** One entry that goes through, unfolded. */
  lemma ExtractFromStep<S>(t: Tree, dest: Path, entries: seq<ZipEntry>, i: nat, state: S,
                           hook: Option<Hook<S>>, next: S)
    requires i < |entries|
    requires (if hook.Some? then hook.value(state, entries[i].fileName, i + 1, |entries|) else Ok(state)) == Ok(next)
    requires ApplyEntry(t, dest, entries[i]).error.None?
    ensures var rest := ExtractFrom(ApplyEntry(t, dest, entries[i]).tree, dest, entries, i + 1, next, hook);
            var calls := if hook.Some? then [Call(entries[i].fileName, i + 1, |entries|)] else [];
            ExtractFrom(t, dest, entries, i, state, hook) == Outcome(rest.result, rest.tree, calls + rest.calls)
  {
  }

  /** The entry loop of `extractZip`: `idx` counts the entries announced so far. */
  method ExtractEntries<S>(fs: FileSystem, target: Path, entries: seq<ZipEntry>, state: S,
                           hook: Option<Hook<S>>)
    returns (r: Result<S>, calls: seq<Call>)
    requires fs.Valid()
    modifies fs
    ensures fs.Valid()
    ensures ExtractFrom(old(fs.tree), target, entries, 0, state, hook) == Outcome(r, fs.tree, calls)
  {
    ghost var whole := ExtractFrom(fs.tree, target, entries, 0, state, hook);
    var s := state;
    calls := [];
    var idx := 0;
    while idx < |entries|
      invariant 0 <= idx <= |entries|
      invariant fs.Valid()
      invariant var rest := ExtractFrom(fs.tree, target, entries, idx, s, hook);
                whole == Outcome(rest.result, rest.tree, calls + rest.calls)
      decreases |entries| - idx
    {
      ghost var t, s0, calls0, i0 := fs.tree, s, calls, idx;
      var entry := entries[idx];
      idx := idx + 1;
      var called: Result<S> := Ok(s);
      if hook.Some? {
        calls := calls + [Call(entry.fileName, idx, |entries|)];
        called := hook.value(s, entry.fileName, idx, |entries|);
        if called.Err? {
          return Err(called.error), calls;
        }
      }
      s := called.value;
      var full := EntryPath(target, entry.fileName);
      ghost var step := ApplyEntry(t, target, entry);
      if IsDirEntry(entry.fileName) {
        fs.MakeDirs(full);
      } else {
        fs.MakeDirs(Dirname(full));
        var w := fs.Write(full, Mode(entry.externalFileAttributes));
        if w.Err? {
          assert fs.tree == step.tree;
          return Err(w.error), calls;
        }
      }
      assert fs.tree == step.tree && step.error.None?;
      ExtractFromStep(t, target, entries, i0, s0, hook, s);
      ghost var rest := ExtractFrom(fs.tree, target, entries, idx, s, hook);
      ghost var mine := if hook.Some? then [Call(entry.fileName, idx, |entries|)] else [];
      assert calls == calls0 + mine;
      AppendAssociative(calls0, mine, rest.calls);
    }
    return Ok(s), calls;
  }

  /** `extractZip` on the file system `fs`. */
  method ExtractZip<S>(fs: FileSystem, params: Arg<()>, dest: Arg<string>, file: Arg<string>,
                       archive: Option<seq<ZipEntry>>, state: S, hook: Option<Hook<S>>)
    returns (r: Result<S>, calls: seq<Call>)
    requires fs.Valid()
    modifies fs
    ensures fs.Valid()
    ensures ExtractSpec(old(fs.tree), params, dest, file, archive, state, hook) == Outcome(r, fs.tree, calls)
  {
    if !params.Given? {
      return Err(ParamsNotObject), [];
    }
    if !IsNonEmptyString(dest) {
      return Err(DestNotString), [];
    }
    if !IsNonEmptyString(file) {
      return Err(ZipFileNotString), [];
    }
    var f := Components(file.value);
    if !fs.Exists(f) {
      return Err(ZipMissing), [];
    }
    if !fs.IsFile(f) {
      return Err(ZipNotFile), [];
    }
    if archive.None? {
      return Err(InvalidZip), [];
    }
    r, calls := ExtractEntries(fs, Components(dest.value), archive.value, state, hook);
  }
}
