/** Where Titanium SDKs are installed: the configured search paths followed by the
    platform's default locations, each passed through `expandPath`, without
    duplicates. `expandPath` is a parameter of the model. */
module Locations {
  import opened Base
  import Paths

  /** The common search paths per platform; `None` for a platform the table lacks. */
  function Defaults(platform: string): (r: Option<seq<string>>)
    ensures r.Some? <==> platform == "darwin" || platform == "linux" || platform == "win32"
    ensures r.Some? ==> r.value != []
  {
    if platform == "darwin" then
      Some(["~/Library/Application Support/Titanium", "/Library/Application Support/Titanium"])
    else if platform == "linux" then
      Some(["~/.titanium"])
    else if platform == "win32" then
      Some(["%ProgramData%\\Titanium", "%APPDATA%\\Titanium",
            "%ALLUSERSPROFILE%\\Application Data\\Titanium"])
    else None
  }

  predicate Distinct(s: seq<string>) {
    forall i, j :: 0 <= i < j < |s| ==> s[i] != s[j]
  }

  /** `unique(list)`: the first occurrence of every entry, in order. */
  function Unique(s: seq<string>): (r: seq<string>)
    ensures Distinct(r)
    ensures forall x :: x in r <==> x in s
    ensures |r| <= |s|
    decreases |s|
  {
    if s == [] then []
    else
      var front := s[..|s| - 1];
      assert s == front + [s[|s| - 1]];
      var u := Unique(front);
      if s[|s| - 1] in u then u else u + [s[|s| - 1]]
  }

  /** `list.map(p => expandPath(p))` */
  function Expanded(s: seq<string>, expand: string -> string): (r: seq<string>)
    ensures |r| == |s| && forall i :: 0 <= i < |s| ==> r[i] == expand(s[i])
  {
    seq(|s|, i requires 0 <= i < |s| => expand(s[i]))
  }

  /** A list without duplicates is its own `unique`. */
  lemma {:induction false} UniqueOfDistinct(s: seq<string>)
    requires Distinct(s)
    ensures Unique(s) == s
    decreases |s|
  {
    if s != [] {
      var front := s[..|s| - 1];
      UniqueOfDistinct(front);
      assert s == front + [s[|s| - 1]];
    }
  }

  /** Deduplicating `a + b` keeps the deduplicated `a` in front. */
  lemma {:induction false} UniquePrefix(a: seq<string>, b: seq<string>)
    ensures |Unique(a)| <= |Unique(a + b)| && Unique(a + b)[..|Unique(a)|] == Unique(a)
    decreases |b|
  {
    if b == [] {
      assert a + b == a;
    } else {
      var b' := b[..|b| - 1];
      UniquePrefix(a, b');
      assert (a + b)[..|a + b| - 1] == a + b';
    }
  }

  lemma {:induction false} DistinctSize(s: seq<string>)
    requires Distinct(s)
    ensures |set x | x in s| == |s|
    decreases |s|
  {
    if s != [] {
      var front := s[..|s| - 1];
      DistinctSize(front);
      assert s == front + [s[|s| - 1]];
      assert (set x | x in s) == (set x | x in front) + {s[|s| - 1]};
    }
  }

  /** `unique` has exactly one entry per distinct value. */
  lemma UniqueSize(s: seq<string>)
    ensures |Unique(s)| == |set x | x in s|
  {
    DistinctSize(Unique(s));
    assert (set x | x in Unique(s)) == (set x | x in s);
  }

  /** Putting a value that is already listed in front of the list does not change
      the length of its `unique`. */
  lemma AddExisting(s: seq<string>, x: string)
    requires x in s
    ensures |Unique([x] + s)| == |Unique(s)|
  {
    UniqueSize(s);
    UniqueSize([x] + s);
    assert (set y | y in [x] + s) == (set y | y in s);
  }

  /** `getInstallPaths()` of `locations.js`. `searchPaths` is the configured list
      (an unset option is the empty list); empty entries are dropped. The platform
      key is `TITANIUMLIB_PLATFORM` when that is set and non-empty, otherwise the
      running platform. */
  function InstallPaths(searchPaths: seq<string>, envPlatform: string, platform: string,
                        expand: string -> string): seq<string>
  {
    var key := if envPlatform != "" then envPlatform else platform;
    var defaults := Defaults(key).GetOr([]);
    Unique(Expanded(Paths.NonEmpty(searchPaths), expand) + Expanded(defaults, expand))
  }

  /** The list has no duplicates, and holds exactly the expanded non-empty search
      paths and the expanded defaults of the selected platform. */
  lemma InstallPathsMembers(searchPaths: seq<string>, envPlatform: string, platform: string,
                            expand: string -> string, x: string)
    ensures Distinct(InstallPaths(searchPaths, envPlatform, platform, expand))
    ensures var key := if envPlatform != "" then envPlatform else platform;
            x in InstallPaths(searchPaths, envPlatform, platform, expand) <==>
              (exists p :: p in searchPaths && p != "" && expand(p) == x) ||
              (exists p :: p in Defaults(key).GetOr([]) && expand(p) == x)
  {
    var key := if envPlatform != "" then envPlatform else platform;
    var ne := Paths.NonEmpty(searchPaths);
    NonEmptyMembers(searchPaths);
    ExpandedMembers(ne, expand, x);
    ExpandedMembers(Defaults(key).GetOr([]), expand, x);
    if exists p :: p in searchPaths && p != "" && expand(p) == x {
      var p :| p in searchPaths && p != "" && expand(p) == x;
      assert p in ne;
    }
  }

  /** A value is an expanded entry exactly when it expands some entry. */
  lemma ExpandedMembers(s: seq<string>, expand: string -> string, x: string)
    ensures x in Expanded(s, expand) <==> exists p :: p in s && expand(p) == x
  {
    if x in Expanded(s, expand) {
      var i :| 0 <= i < |s| && Expanded(s, expand)[i] == x;
      assert s[i] in s;
    }
    if exists p :: p in s && expand(p) == x {
      var p :| p in s && expand(p) == x;
      var i :| 0 <= i < |s| && s[i] == p;
      assert Expanded(s, expand)[i] == x;
    }
  }

  lemma {:induction false} NonEmptyMembers(s: seq<string>)
    ensures forall p :: p in Paths.NonEmpty(s) <==> p in s && p != ""
    decreases |s|
  {
    if s != [] {
      NonEmptyMembers(s[1..]);
      assert s == [s[0]] + s[1..];
    }
  }

  /** The configured search paths come first, in their own order. */
  lemma SearchPathsFirst(searchPaths: seq<string>, envPlatform: string, platform: string,
                         expand: string -> string)
    ensures var first := Unique(Expanded(Paths.NonEmpty(searchPaths), expand));
            var r := InstallPaths(searchPaths, envPlatform, platform, expand);
            |first| <= |r| && r[..|first|] == first
  {
    var key := if envPlatform != "" then envPlatform else platform;
    UniquePrefix(Expanded(Paths.NonEmpty(searchPaths), expand), Expanded(Defaults(key).GetOr([]), expand));
  }

  /** A set `TITANIUMLIB_PLATFORM` replaces the running platform; a platform the
      table lacks contributes nothing. */
  lemma PlatformKey(searchPaths: seq<string>, envPlatform: string, platform: string,
                    expand: string -> string)
    ensures envPlatform != "" ==>
              InstallPaths(searchPaths, envPlatform, platform, expand) ==
              InstallPaths(searchPaths, "", envPlatform, expand)
    ensures envPlatform == "" && Defaults(platform).None? ==>
              InstallPaths(searchPaths, envPlatform, platform, expand) ==
              Unique(Expanded(Paths.NonEmpty(searchPaths), expand))
  {
    var ne := Expanded(Paths.NonEmpty(searchPaths), expand);
    assert Expanded([], expand) == [];
    assert ne + [] == ne;
  }

  /** `getInstallPaths(defaultPath)` of the SDK module: the running platform's
      locations, expanded, with an expanded default path in front when one is given.
      A platform without locations fails as the source's `undefined.map` does; a
      truthy default that is not a string is a `TypeError`. A falsy default (also
      `0`, `null` or `false`) is `Missing` here, and `Given("")` is falsy too. */
  function SdkInstallPaths(defaultPath: Arg<string>, platform: string, expand: string -> string): Result<seq<string>>
  {
    match Defaults(platform)
    case None => Err(UnknownPlatform)
    case Some(locs) =>
      var paths := Expanded(locs, expand);
      if defaultPath.Missing? || defaultPath == Given("") then Ok(Unique(paths))
      else if defaultPath.WrongType? then Err(DefaultPathNotString)
      else Ok(Unique([expand(defaultPath.value)] + paths))
  }

  /** The outcome by case: the given default comes first, and the list is never
      empty, so the installer always has a first path to install into. */
  lemma SdkInstallPathsCases(defaultPath: Arg<string>, platform: string, expand: string -> string)
    ensures var r := SdkInstallPaths(defaultPath, platform, expand);
            (r.Err? <==> Defaults(platform).None? || defaultPath.WrongType?) &&
            (r.Err? ==> r.error == if Defaults(platform).None? then UnknownPlatform else DefaultPathNotString) &&
            (r.Ok? ==> r.value != [] && Distinct(r.value)) &&
            (r.Ok? && defaultPath.Given? && defaultPath.value != "" ==> r.value[0] == expand(defaultPath.value))
  {
    match Defaults(platform)
    case None =>
    case Some(locs) =>
      var paths := Expanded(locs, expand);
      assert paths[0] in paths;
      if defaultPath.Given? && defaultPath.value != "" {
        var x := expand(defaultPath.value);
        UniquePrefix([x], paths);
        assert Unique([x]) == Unique([]) + [x];
      }
  }

  /** Passing a path the list already holds as the default leaves its length alone. */
  lemma DefaultAlreadyListed(platform: string, expand: string -> string, p: string)
    requires SdkInstallPaths(Missing, platform, expand).Ok? && p != ""
    requires expand(p) in SdkInstallPaths(Missing, platform, expand).value
    ensures SdkInstallPaths(Given(p), platform, expand).Ok?
    ensures |SdkInstallPaths(Given(p), platform, expand).value| == |SdkInstallPaths(Missing, platform, expand).value|
  {
    var paths := Expanded(Defaults(platform).value, expand);
    AddExisting(paths, expand(p));
  }
}
