/** The older `TitaniumModule` of `src/module.js`: the same directory layout and
    manifest lines as the new reader, but every manifest value is kept as a
    string and the platform is not checked for blankness. `expandPath`, `isDir`,
    reading the manifest file and `semver.valid` are parameters of the model. */
module LegacyModuleReader {
  import opened Base
  import opened Text
  import opened Dict
  import opened Paths
  import opened Manifest
  import ModuleReader

  /** `path`, `platform` and `version` are set. */
  ghost predicate Fields(d: Dict<string>) {
    d.Valid() && "path" in d.vals && "platform" in d.vals && "version" in d.vals
  }

  lemma {:induction false} ApplyFields(d: Dict<string>, es: seq<Option<Entry>>)
    requires Fields(d)
    ensures Fields(Apply(d, es, AsText))
    decreases |es|
  {
    if es != [] {
      ApplyFields(d, es[..|es| - 1]);
    }
  }

  /** The outcome of the checks after the manifest, and the fields they leave. */
  datatype Checked = Checked(result: Result<()>, props: Dict<string>)

  /** `iphone` is renamed `ios`; then the version must be valid semver. */
  function CheckSpec(d: Dict<string>, validSemver: string -> bool): Checked
    requires Fields(d)
  {
    var p := d.vals["platform"];
    var d' := if p == "iphone" then d.Put("platform", ModuleReader.Renamed(p)) else d;
    var v := d.vals["version"];
    Checked(if validSemver(v) then Ok(()) else Err(LegacyModuleVersionInvalid(v)), d')
  }

  /** The fields after the parsed manifest lines `es` are applied to those of `dir`. */
  function AfterEntries(dir: string, es: seq<Option<Entry>>): (r: Dict<string>)
    ensures Fields(r)
  {
    ApplyFields(Derived(dir, TextOf), es);
    Apply(Derived(dir, TextOf), es, AsText)
  }

  /** The checks always keep the fields, rename `iphone`, and pass exactly when
      the version is valid semver. */
  lemma CheckOutcome(d: Dict<string>, validSemver: string -> bool, k: string)
    requires Fields(d)
    ensures var c := CheckSpec(d, validSemver);
            Fields(c.props) &&
            (c.result.Ok? <==> validSemver(d.vals["version"])) &&
            (c.result.Err? ==> c.result.error == LegacyModuleVersionInvalid(d.vals["version"])) &&
            c.props.vals["platform"] == ModuleReader.Renamed(d.vals["platform"]) &&
            (k != "platform" ==> (k in c.props.vals <==> k in d.vals)) &&
            (k != "platform" && k in d.vals ==> c.props.vals[k] == d.vals[k])
  {
  }

  /** The module in directory `dir` whose manifest lines parse as `es`. */
  function ReadEntries(dir: string, es: seq<Option<Entry>>, validSemver: string -> bool): (r: Result<Dict<string>>)
    ensures r.Ok? ==> Fields(r.value)
  {
    var c := CheckSpec(AfterEntries(dir, es), validSemver);
    CheckOutcome(AfterEntries(dir, es), validSemver, "version");
    if c.result.Err? then Err(c.result.error) else Ok(c.props)
  }

  /** The module in directory `dir` whose manifest reads as `text`. */
  function ReadSpec(dir: string, text: string, validSemver: string -> bool): Result<Dict<string>> {
    ReadEntries(dir, Parsed(Lines(text)), validSemver)
  }

  /** The constructor: the fields of the module in `dir`, or the error it throws. */
  function LoadSpec(dir: Arg<string>, expand: string -> string, isDir: string -> bool,
                    readManifest: string -> Option<string>, validSemver: string -> bool): Result<Dict<string>>
  {
    if !IsNonEmptyString(dir) then Err(DirNotString)
    else
      var d := expand(dir.value);
      if !isDir(d) then Err(DirMissing)
      else match readManifest(d)
        case None => Err(NoManifest)
        case Some(text) => ReadSpec(d, text, validSemver)
  }

  class TitaniumModule {
    /** The object's own properties, in insertion order. */
    var props: Dict<string>

    ghost predicate Valid()
      reads this
    {
      Fields(props)
    }

    /** `path`, `platform` and `version` from the directory. */
    constructor (dir: string)
      ensures Valid() && props == Derived(dir, TextOf)
    {
      props := Derived(dir, TextOf);
    }

    /** The loop over the manifest lines, assigning `this[key]` for each match. */
    method ReadManifest(text: string)
      requires Valid()
      modifies this
      ensures Valid() && props == Apply(old(props), Parsed(Lines(text)), AsText)
    {
      var lines := Lines(text);
      var i := 0;
      while i < |lines|
        invariant 0 <= i <= |lines|
        invariant props == Apply(old(props), Parsed(lines[..i]), AsText)
      {
        var m := ParseLine(lines[i]);
        ApplyNextLine(old(props), lines, i, AsText);
        if m.Some? {
          props := props.Put(m.value.key, m.value.text);
        }
        i := i + 1;
      }
      assert lines[..i] == lines;
      ApplyFields(old(props), Parsed(lines));
    }

    /** The rename of `iphone` and the version check. */
    method Check(validSemver: string -> bool) returns (r: Result<()>)
      requires Valid()
      modifies this
      ensures Valid()
      ensures r == CheckSpec(old(props), validSemver).result
      ensures props == CheckSpec(old(props), validSemver).props
    {
      if props.vals["platform"] == "iphone" {
        props := props.Put("platform", "ios");
      }
      var v := props.vals["version"];
      if !validSemver(v) {
        return Err(LegacyModuleVersionInvalid(v));
      }
      return Ok(());
    }
  }

  /** `new TitaniumModule(dir)` of the legacy reader. */
  method Load(dir: Arg<string>, expand: string -> string, isDir: string -> bool,
              readManifest: string -> Option<string>, validSemver: string -> bool)
    returns (r: Result<TitaniumModule>)
    ensures r.Err? <==> LoadSpec(dir, expand, isDir, readManifest, validSemver).Err?
    ensures r.Err? ==> r.error == LoadSpec(dir, expand, isDir, readManifest, validSemver).error
    ensures r.Ok? ==> fresh(r.value) && r.value.Valid() &&
                      r.value.props == LoadSpec(dir, expand, isDir, readManifest, validSemver).value
  {
    if !IsNonEmptyString(dir) {
      return Err(DirNotString);
    }
    var d := expand(dir.value);
    if !isDir(d) {
      return Err(DirMissing);
    }
    var m := new TitaniumModule(d);
    var text := readManifest(d);
    if text.None? {
      return Err(NoManifest);
    }
    m.ReadManifest(text.value);
    var c := m.Check(validSemver);
    if c.Err? {
      return Err(c.error);
    }
    return Ok(m);
  }

  /** The directory is checked before the manifest, and the only error after
      the manifest is an invalid version. */
  lemma LoadValidationOrder(dir: Arg<string>, expand: string -> string, isDir: string -> bool,
                            readManifest: string -> Option<string>, validSemver: string -> bool)
    ensures var r := LoadSpec(dir, expand, isDir, readManifest, validSemver);
            (r == Err(DirNotString) <==> !IsNonEmptyString(dir)) &&
            (r == Err(DirMissing) <==> IsNonEmptyString(dir) && !isDir(expand(dir.value))) &&
            (r == Err(NoManifest) <==>
               IsNonEmptyString(dir) && isDir(expand(dir.value)) && readManifest(expand(dir.value)).None?) &&
            (IsNonEmptyString(dir) && isDir(expand(dir.value)) && readManifest(expand(dir.value)).Some? ==>
               r == ReadSpec(expand(dir.value), readManifest(expand(dir.value)).value, validSemver))
  {
    if IsNonEmptyString(dir) && isDir(expand(dir.value)) && readManifest(expand(dir.value)).Some? {
      var d := expand(dir.value);
      var es := Parsed(Lines(readManifest(d).value));
      CheckOutcome(AfterEntries(d, es), validSemver, "");
    }
  }

  /** After the manifest, the module loads exactly when its final version is
      valid semver, and otherwise the error names that version. */
  lemma ReadOutcome(dir: string, es: seq<Option<Entry>>, validSemver: string -> bool)
    ensures var v := AfterEntries(dir, es).vals["version"];
            (ReadEntries(dir, es, validSemver).Ok? <==> validSemver(v)) &&
            (!validSemver(v) ==> ReadEntries(dir, es, validSemver) == Err(LegacyModuleVersionInvalid(v)))
  {
    CheckOutcome(AfterEntries(dir, es), validSemver, "");
  }

  /** The last manifest line for a key other than `platform` sets its value,
      always as the matched text. */
  lemma ManifestOverrides(dir: string, es: seq<Option<Entry>>, validSemver: string -> bool, i: nat, k: string)
    requires ReadEntries(dir, es, validSemver).Ok?
    requires k != "platform" && LastAssigns(es, i, k)
    ensures var props := ReadEntries(dir, es, validSemver).value;
            k in props.vals && props.vals[k] == es[i].value.text
  {
    ApplyLastWins(Derived(dir, TextOf), es, AsText, i);
    CheckOutcome(AfterEntries(dir, es), validSemver, k);
  }

  /** The platform is the one the last `platform` line gives or, without one,
      the directory two levels up; either way `iphone` becomes `ios`. */
  lemma LoadedPlatform(dir: string, es: seq<Option<Entry>>, validSemver: string -> bool)
    requires ReadEntries(dir, es, validSemver).Ok?
    ensures var props := ReadEntries(dir, es, validSemver).value;
            props.vals["platform"] != "iphone" &&
            (forall i: nat :: LastAssigns(es, i, "platform") ==>
               props.vals["platform"] == ModuleReader.Renamed(es[i].value.text)) &&
            ("platform" !in AssignedKeys(es) ==>
               props.vals["platform"] == ModuleReader.Renamed(PlatformOf(Components(dir))))
  {
    var before := AfterEntries(dir, es);
    CheckOutcome(before, validSemver, "platform");
    forall i: nat | LastAssigns(es, i, "platform")
      ensures before.vals["platform"] == es[i].value.text
    {
      ApplyLastWins(Derived(dir, TextOf), es, AsText, i);
    }
    if "platform" !in AssignedKeys(es) {
      ApplyUndefined(Derived(dir, TextOf), es, AsText, "platform");
    }
  }

  /** A field other than `platform` that no manifest line assigns keeps the
      value taken from the directory. */
  lemma DirectoryFieldKept(dir: string, es: seq<Option<Entry>>, validSemver: string -> bool, k: string)
    requires ReadEntries(dir, es, validSemver).Ok?
    requires k != "platform" && k in Derived(dir, TextOf).vals && k !in AssignedKeys(es)
    ensures k in ReadEntries(dir, es, validSemver).value.vals
    ensures ReadEntries(dir, es, validSemver).value.vals[k] == Derived(dir, TextOf).vals[k]
  {
    CheckOutcome(AfterEntries(dir, es), validSemver, k);
    ApplyUndefined(Derived(dir, TextOf), es, AsText, k);
  }

  /** Before the checks, the legacy fields are the new reader's fields with
      every number turned back into its text. */
  lemma ReadersAgree(dir: string, es: seq<Option<Entry>>)
    ensures Agree(ModuleReader.AfterEntries(dir, es), AfterEntries(dir, es))
  {
    DerivedAgree(dir);
    ApplyAgree(Derived(dir, StrOf), Derived(dir, TextOf), es);
  }

  /** A module directory too shallow to name a platform, with no `platform`
      line: the legacy reader keeps the empty platform, while the new reader
      rejects it as blank. */
  lemma BlankPlatformAccepted(dir: string, es: seq<Option<Entry>>, validSemver: string -> bool)
    requires "platform" !in AssignedKeys(es) && PlatformOf(Components(dir)) == ""
    requires validSemver(AfterEntries(dir, es).vals["version"])
    ensures ReadEntries(dir, es, validSemver).Ok?
    ensures ReadEntries(dir, es, validSemver).value.vals["platform"] == ""
    ensures ModuleReader.ReadEntries(dir, es, validSemver) == Err(PlatformNotValid)
  {
    var before := AfterEntries(dir, es);
    CheckOutcome(before, validSemver, "platform");
    ApplyUndefined(Derived(dir, TextOf), es, AsText, "platform");
    ApplyUndefined(Derived(dir, StrOf), es, Coerce, "platform");
    ModuleReader.CheckErrors(ModuleReader.AfterEntries(dir, es), validSemver);
    assert Trim("") == "";
  }
}
