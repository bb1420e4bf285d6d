/** The `TitaniumModule` of `src/module/titanium-module.js`: reads a module
    version directory `<root>/<platform>/<name>/<version>` and its `manifest`.
    `expandPath`, `isDir`, reading the manifest file and `semver.valid` are
    parameters of the model. */
module ModuleReader {
  import opened Base
  import opened Text
  import opened Dict
  import opened Paths
  import opened Manifest

  /** The fields the constructor relies on: `path`, `platform` and `version`
      are set, and `version` is a string, because a `version` line is never
      turned into a number. */
  ghost predicate Fields(d: Dict<Value>) {
    d.Valid() && "path" in d.vals && "platform" in d.vals && "version" in d.vals && d.vals["version"].Str?
  }

  /** The manifest loop keeps those fields. */
  lemma {:induction false} ApplyFields(d: Dict<Value>, es: seq<Option<Entry>>)
    requires Fields(d)
    ensures Fields(Apply(d, es, Coerce))
    decreases |es|
  {
    if es != [] {
      ApplyFields(d, es[..|es| - 1]);
    }
  }

  /** The platform under its current name: `iphone` is now `ios`. */
  function Renamed(p: string): string {
    if p == "iphone" then "ios" else p
  }

  /** The outcome of the checks after the manifest, and the fields they leave. */
  datatype Checked = Checked(result: Result<()>, props: Dict<Value>)

  /** A platform that is a number has no `trim`; a blank one is rejected;
      `iphone` is renamed `ios`; then the version must be valid semver. */
  function CheckSpec(d: Dict<Value>, validSemver: string -> bool): Checked
    requires Fields(d)
  {
    match d.vals["platform"]
    case Num(_) => Checked(Err(PlatformNotString), d)
    case Str(p) =>
      if Trim(p) == "" then Checked(Err(PlatformNotValid), d)
      else
        var d' := if p == "iphone" then d.Put("platform", Str(Renamed(p))) else d;
        var v := d.vals["version"].text;
        Checked(if validSemver(v) then Ok(()) else Err(ModuleVersionInvalid(v)), d')
  }

  /** The fields after the parsed manifest lines `es` are applied to those of `dir`. */
  function AfterEntries(dir: string, es: seq<Option<Entry>>): (r: Dict<Value>)
    ensures Fields(r)
  {
    ApplyFields(Derived(dir, StrOf), es);
    Apply(Derived(dir, StrOf), es, Coerce)
  }

  /** The module in directory `dir` whose manifest lines parse as `es`: its
      fields, or the error the checks after the manifest throw. */
  function ReadEntries(dir: string, es: seq<Option<Entry>>, validSemver: string -> bool): (r: Result<Dict<Value>>)
    ensures r.Ok? ==> Fields(r.value)
  {
    var c := CheckSpec(AfterEntries(dir, es), validSemver);
    CheckOutcome(AfterEntries(dir, es), validSemver, "version");
    if c.result.Err? then Err(c.result.error) else Ok(c.props)
  }

  /** The module in directory `dir` whose manifest reads as `text`. */
  function ReadSpec(dir: string, text: string, validSemver: string -> bool): Result<Dict<Value>> {
    ReadEntries(dir, Parsed(Lines(text)), validSemver)
  }

  /** The constructor: the fields of the module in `dir`, or the error it throws. */
  function LoadSpec(dir: Arg<string>, expand: string -> string, isDir: string -> bool,
                    readManifest: string -> Option<string>, validSemver: string -> bool): Result<Dict<Value>>
  {
    if !IsNonEmptyString(dir) then Err(DirNotString)
    else
      var d := expand(dir.value);
      if !isDir(d) then Err(DirMissing)
      else match readManifest(d)
        case None => Err(NoManifest)
        case Some(text) => ReadSpec(d, text, validSemver)
  }

  class TitaniumModule {
    /** The object's own properties, in insertion order. */
    var props: Dict<Value>

    ghost predicate Valid()
      reads this
    {
      Fields(props)
    }

    /** `path`, `platform` and `version` from the directory. */
    constructor (dir: string)
      ensures Valid() && props == Derived(dir, StrOf)
    {
      props := Derived(dir, StrOf);
    }

    /** The loop over the manifest lines, assigning `this[key]` for each match. */
    method ReadManifest(text: string)
      requires Valid()
      modifies this
      ensures Valid() && props == Apply(old(props), Parsed(Lines(text)), Coerce)
    {
      var lines := Lines(text);
      var i := 0;
      while i < |lines|
        invariant 0 <= i <= |lines|
        invariant props == Apply(old(props), Parsed(lines[..i]), Coerce)
      {
        var m := ParseLine(lines[i]);
        ApplyNextLine(old(props), lines, i, Coerce);
        if m.Some? {
          props := props.Put(m.value.key, Coerce(m.value));
        }
        i := i + 1;
      }
      assert lines[..i] == lines;
      ApplyFields(old(props), Parsed(lines));
    }

    /** The platform and version checks, renaming `iphone` on the way. */
    method Check(validSemver: string -> bool) returns (r: Result<()>)
      requires Valid()
      modifies this
      ensures Valid()
      ensures r == CheckSpec(old(props), validSemver).result
      ensures props == CheckSpec(old(props), validSemver).props
    {
      var platform := props.vals["platform"];
      if platform.Num? {
        return Err(PlatformNotString);
      }
      if Trim(platform.text) == "" {
        return Err(PlatformNotValid);
      }
      var v := props.vals["version"].text;
      if platform.text == "iphone" {
        props := props.Put("platform", Str("ios"));
      }
      if !validSemver(v) {
        return Err(ModuleVersionInvalid(v));
      }
      return Ok(());
    }
  }

  /** `new TitaniumModule(dir)`: the checks on `dir` in the source's order, then
      the manifest, then the platform and version checks. */
  method Load(dir: Arg<string>, expand: string -> string, isDir: string -> bool,
              readManifest: string -> Option<string>, validSemver: string -> bool)
    returns (r: Result<TitaniumModule>)
    ensures r.Err? <==> LoadSpec(dir, expand, isDir, readManifest, validSemver).Err?
    ensures r.Err? ==> r.error == LoadSpec(dir, expand, isDir, readManifest, validSemver).error
    ensures r.Ok? ==> fresh(r.value) && r.value.Valid() &&
                      r.value.props == LoadSpec(dir, expand, isDir, readManifest, validSemver).value
  {
    if !IsNonEmptyString(dir) {
      return Err(DirNotString);
    }
    var d := expand(dir.value);
    if !isDir(d) {
      return Err(DirMissing);
    }
    var m := new TitaniumModule(d);
    var text := readManifest(d);
    if text.None? {
      return Err(NoManifest);
    }
    m.ReadManifest(text.value);
    var c := m.Check(validSemver);
    if c.Err? {
      return Err(c.error);
    }
    return Ok(m);
  }

  /** The checks pass exactly when the platform is a non-blank string and the
      version is valid semver; they then leave every field but `platform` as it
      was and turn `iphone` into `ios`. */
  lemma CheckOutcome(d: Dict<Value>, validSemver: string -> bool, k: string)
    requires Fields(d)
    ensures var c := CheckSpec(d, validSemver);
            (c.result.Ok? <==> d.vals["platform"].Str? && Trim(d.vals["platform"].text) != "" &&
                               validSemver(d.vals["version"].text)) &&
            (c.result.Ok? ==> Fields(c.props) &&
                              c.props.vals["platform"] == Str(Renamed(d.vals["platform"].text)) &&
                              (k != "platform" ==> (k in c.props.vals <==> k in d.vals)) &&
                              (k != "platform" && k in d.vals ==> c.props.vals[k] == d.vals[k]))
  {
  }

  /** The error of the checks, in the source's order. */
  lemma CheckErrors(d: Dict<Value>, validSemver: string -> bool)
    requires Fields(d)
    ensures var c := CheckSpec(d, validSemver);
            (d.vals["platform"].Num? ==> c.result == Err(PlatformNotString)) &&
            (d.vals["platform"].Str? && Trim(d.vals["platform"].text) == "" ==> c.result == Err(PlatformNotValid)) &&
            (d.vals["platform"].Str? && Trim(d.vals["platform"].text) != "" && !validSemver(d.vals["version"].text) ==>
               c.result == Err(ModuleVersionInvalid(d.vals["version"].text)))
  {
  }

  /** The directory is checked before the manifest: a missing or empty argument,
      then a missing directory, then an unreadable manifest; after that the
      module is what its directory and manifest text give. */
  lemma LoadValidationOrder(dir: Arg<string>, expand: string -> string, isDir: string -> bool,
                            readManifest: string -> Option<string>, validSemver: string -> bool)
    ensures var r := LoadSpec(dir, expand, isDir, readManifest, validSemver);
            (r == Err(DirNotString) <==> !IsNonEmptyString(dir)) &&
            (r == Err(DirMissing) <==> IsNonEmptyString(dir) && !isDir(expand(dir.value))) &&
            (r == Err(NoManifest) <==>
               IsNonEmptyString(dir) && isDir(expand(dir.value)) && readManifest(expand(dir.value)).None?) &&
            (IsNonEmptyString(dir) && isDir(expand(dir.value)) && readManifest(expand(dir.value)).Some? ==>
               r == ReadSpec(expand(dir.value), readManifest(expand(dir.value)).value, validSemver))
  {
    if IsNonEmptyString(dir) && isDir(expand(dir.value)) && readManifest(expand(dir.value)).Some? {
      var d := expand(dir.value);
      ReadErrors(d, Parsed(Lines(readManifest(d).value)), validSemver);
    }
  }

  /** The checks after the manifest fail only with a platform or version error. */
  lemma ReadErrors(dir: string, es: seq<Option<Entry>>, validSemver: string -> bool)
    ensures ReadEntries(dir, es, validSemver).Err? ==>
              ReadEntries(dir, es, validSemver).error in
                {PlatformNotString, PlatformNotValid, ModuleVersionInvalid(AfterEntries(dir, es).vals["version"].text)}
  {
    CheckErrors(AfterEntries(dir, es), validSemver);
    CheckOutcome(AfterEntries(dir, es), validSemver, "");
  }

  /** A renamed platform that was not blank is still not blank, and is never `iphone`. */
  lemma RenamedFacts(p: string)
    requires Trim(p) != ""
    ensures Trim(Renamed(p)) != "" && Renamed(p) != "iphone"
  {
    assert Trim("ios") == "ios";
  }

  /** After checks that pass, the platform is a non-blank string other than
      `iphone` and the version is valid semver. */
  lemma CheckPasses(d: Dict<Value>, validSemver: string -> bool)
    requires Fields(d) && CheckSpec(d, validSemver).result.Ok?
    ensures var props := CheckSpec(d, validSemver).props;
            Fields(props) && props.vals["platform"].Str? && Trim(props.vals["platform"].text) != "" &&
            props.vals["platform"].text != "iphone" && validSemver(props.vals["version"].text)
  {
    CheckOutcome(d, validSemver, "version");
    RenamedFacts(d.vals["platform"].text);
  }

  /** A loaded module has a non-blank platform other than `iphone`, and a
      version that is valid semver. */
  lemma LoadedModule(dir: string, es: seq<Option<Entry>>, validSemver: string -> bool)
    requires ReadEntries(dir, es, validSemver).Ok?
    ensures var props := ReadEntries(dir, es, validSemver).value;
            Fields(props) && props.vals["platform"].Str? && Trim(props.vals["platform"].text) != "" &&
            props.vals["platform"].text != "iphone" && validSemver(props.vals["version"].text)
  {
    CheckPasses(AfterEntries(dir, es), validSemver);
  }

  /** The last manifest line for a key other than `platform` sets its value in
      the loaded module, as a number when its text is one and the key is not
      `version`, otherwise as a string. */
  lemma ManifestOverrides(dir: string, es: seq<Option<Entry>>, validSemver: string -> bool, i: nat, k: string)
    requires ReadEntries(dir, es, validSemver).Ok?
    requires k != "platform" && LastAssigns(es, i, k)
    ensures var props := ReadEntries(dir, es, validSemver).value;
            k in props.vals && props.vals[k] == Coerce(es[i].value)
  {
    ApplyLastWins(Derived(dir, StrOf), es, Coerce, i);
    CheckOutcome(AfterEntries(dir, es), validSemver, k);
  }

  /** The platform of the loaded module is the one the last `platform` line
      gives or, without one, the directory two levels up; either way `iphone`
      becomes `ios`. */
  lemma LoadedPlatform(dir: string, es: seq<Option<Entry>>, validSemver: string -> bool)
    requires ReadEntries(dir, es, validSemver).Ok?
    ensures var props := ReadEntries(dir, es, validSemver).value;
            (forall i: nat :: LastAssigns(es, i, "platform") ==>
               props.vals["platform"] == Str(Renamed(es[i].value.text))) &&
            ("platform" !in AssignedKeys(es) ==> props.vals["platform"] == Str(Renamed(PlatformOf(Components(dir)))))
  {
    var before := AfterEntries(dir, es);
    CheckOutcome(before, validSemver, "platform");
    forall i: nat | LastAssigns(es, i, "platform")
      ensures before.vals["platform"] == Str(es[i].value.text)
    {
      ApplyLastWins(Derived(dir, StrOf), es, Coerce, i);
    }
    if "platform" !in AssignedKeys(es) {
      ApplyUndefined(Derived(dir, StrOf), es, Coerce, "platform");
    }
  }

  /** A `platform` line whose value is a number leaves a platform without `trim`. */
  lemma NumericPlatformRejected(dir: string, es: seq<Option<Entry>>, validSemver: string -> bool, i: nat)
    requires LastAssigns(es, i, "platform") && IsNumberText(es[i].value.text)
    ensures ReadEntries(dir, es, validSemver) == Err(PlatformNotString)
  {
    ApplyLastWins(Derived(dir, StrOf), es, Coerce, i);
    CheckErrors(AfterEntries(dir, es), validSemver);
  }

  /** A field other than `platform` that no manifest line assigns keeps the
      value taken from the directory. */
  lemma DirectoryFieldKept(dir: string, es: seq<Option<Entry>>, validSemver: string -> bool, k: string)
    requires ReadEntries(dir, es, validSemver).Ok?
    requires k != "platform" && k in Derived(dir, StrOf).vals && k !in AssignedKeys(es)
    ensures k in ReadEntries(dir, es, validSemver).value.vals
    ensures ReadEntries(dir, es, validSemver).value.vals[k] == Derived(dir, StrOf).vals[k]
  {
    CheckOutcome(AfterEntries(dir, es), validSemver, k);
    ApplyUndefined(Derived(dir, StrOf), es, Coerce, k);
  }

  /** Without a `version` line the version is the directory's name, and
      without a `path` line the path is the expanded directory. */
  lemma PathFieldsKept(dir: string, es: seq<Option<Entry>>, validSemver: string -> bool)
    requires ReadEntries(dir, es, validSemver).Ok?
    ensures var props := ReadEntries(dir, es, validSemver).value;
            ("version" !in AssignedKeys(es) ==> props.vals["version"] == Str(Basename(Components(dir)))) &&
            ("path" !in AssignedKeys(es) ==> props.vals["path"] == Str(dir))
  {
    var derived := Derived(dir, StrOf);
    assert derived.vals["version"] == Str(Basename(Components(dir))) && derived.vals["path"] == Str(dir);
    if "version" !in AssignedKeys(es) {
      DirectoryFieldKept(dir, es, validSemver, "version");
    }
    if "path" !in AssignedKeys(es) {
      DirectoryFieldKept(dir, es, validSemver, "path");
    }
  }
}
