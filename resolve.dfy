/** Step 1 of `install`: what the `uri` parameter names (a local zip file, a URL to
    download, or a version selector) and, for a selector, the download URL it
    resolves to through the release list and the CI build catalogs. */
module Resolve {
  import opened Base
  import opened Text
  import opened Dict
  import Version
  import Sorting
  import opened Catalog

  /* ---------- uriRegExp ---------- */

  /** The end of the run of characters `.` matches, starting at `i`. */
  function LineEnd(s: string, i: nat): (r: nat)
    requires i <= |s|
    ensures i <= r <= |s| && NoLineTerminator(s[i..r])
    ensures r < |s| ==> IsLineTerminator(s[r])
    decreases |s| - i
  {
    if i == |s| || IsLineTerminator(s[i]) then i
    else
      var r := LineEnd(s, i + 1);
      assert s[i..r] == [s[i]] + s[i + 1..r];
      r
  }

  function SchemeLength(u: string): nat {
    if StartsWith(u, "https://") then 8 else if StartsWith(u, "http://") then 7 else 0
  }

  /** The first alternative, `^(https?:\/\/.+)`: the scheme at the very start and
      the rest of the first line, which must not be empty. */
  function HttpGroup(u: string): (r: Option<string>)
    ensures r.Some? ==> StartsWith(u, r.value) && (StartsWith(r.value, "http://") || StartsWith(r.value, "https://"))
  {
    var n := SchemeLength(u);
    if n > 0 && n < |u| && !IsLineTerminator(u[n]) then
      var e := LineEnd(u, n);
      assert u[..e][..n] == u[..n];
      Some(u[..e])
    else None
  }

  /** The second alternative, `file:\/\/(.+)$`, can match at `p`. */
  predicate FileAt(u: string, p: nat) {
    OccursAt(u, "file://", p) && p + 7 < |u| && NoLineTerminator(u[p + 7..])
  }

  /** The leftmost position at or after `p` where the second alternative matches. */
  function FirstFile(u: string, p: nat): (r: Option<nat>)
    requires p <= |u|
    ensures r.Some? ==> p <= r.value && FileAt(u, r.value)
    ensures r.Some? ==> forall j: nat :: p <= j < r.value ==> !FileAt(u, j)
    ensures r.None? ==> forall j: nat :: p <= j ==> !FileAt(u, j)
    decreases |u| - p
  {
    if FileAt(u, p) then Some(p)
    else if p == |u| then None
    else FirstFile(u, p + 1)
  }

  datatype UriMatch = HttpUri(url: string) | FileUri(file: string) | NoUri

  /** `uri.match(uriRegExp)`. Only the first alternative is anchored at the start,
      so `file://` may occur anywhere, as long as the rest of the string after it
      is a non-empty single line. */
  function MatchUri(u: string): UriMatch {
    match HttpGroup(u)
    case Some(url) => HttpUri(url)
    case None =>
      match FirstFile(u, 0)
      case Some(p) => FileUri(u[p + 7..])
      case None => NoUri
  }

  /** A one-line `http://` or `https://` URL is recognised as a whole. */
  lemma HttpUriMatch(scheme: string, rest: string)
    requires scheme == "http://" || scheme == "https://"
    requires rest != "" && NoLineTerminator(rest)
    ensures MatchUri(scheme + rest) == HttpUri(scheme + rest)
  {
    var u := scheme + rest;
    assert u[..|scheme|] == scheme;
    if scheme == "http://" {
      assert u[4] == ':';
      assert !StartsWith(u, "https://");
    }
    assert SchemeLength(u) == |scheme|;
    assert u[|scheme|] == rest[0];
    assert u[..|u|] == u;
  }

  /** The `file://` alternative is not anchored at the start: text before it that
      neither starts a URL nor contains an `f` is skipped. */
  lemma FileUriAnywhere(pre: string, file: string)
    requires file != "" && NoLineTerminator(file)
    requires 'f' !in pre && (pre == "" || pre[0] != 'h')
    ensures MatchUri(pre + "file://" + file) == FileUri(file)
  {
    var u := pre + "file://" + file;
    var p := |pre|;
    assert u[0] != 'h' by {
      if pre == "" { assert u[0] == 'f'; } else { assert u[0] == pre[0]; }
    }
    assert SchemeLength(u) == 0;
    assert u[p..p + 7] == "file://";
    assert u[p + 7..] == file;
    assert FileAt(u, p);
    forall j: nat | j < p ensures !FileAt(u, j) {
      assert u[j] == pre[j];
      if j + 7 <= |u| {
        assert u[j..j + 7][0] == u[j];
      }
    }
  }

  /* ---------- classification ---------- */

  datatype Source = LocalZip(file: string) | Remote(url: string) | Selector(ver: string)

  /** What the URI names. `params` is rejected when it is given but is not an
      object (left out, it defaults to `{}`); `present` is `fs.existsSync` and
      `expand` is `expandPath`. A string that names an existing path is a local
      file even when it is not a `file://` URI; the file must exist (checked
      first) and end in `.zip`. */
  function Classify(params: Arg<()>, uri: Arg<string>, present: string -> bool, expand: string -> string): Result<Source> {
    if params.WrongType? then Err(ParamsNotObject)
    else if uri.WrongType? then Err(UriNotString)
    else
      var raw := if uri.Given? then uri.value else "";
      var m := if raw != "" then MatchUri(raw) else NoUri;
      var file := if m.FileUri? then m.file else if raw != "" && present(raw) then raw else "";
      if file != "" then
        var f := expand(file);
        if !present(f) then Err(FileUriMissing)
        else if !EndsWith(f, ".zip") then Err(FileUriNotZip)
        else Ok(LocalZip(f))
      else if m.HttpUri? then Ok(Remote(m.url))
      else Ok(Selector(Trim(if raw == "" then "latest" else raw)))
  }

  lemma TrimLatest()
    ensures Trim("latest") == "latest"
  {
    assert !IsSpace('l') && !IsSpace('t');
    assert TrimStart("latest") == "latest";
  }

  /** No URI, or an empty one, selects the latest release. */
  lemma AbsentUriIsLatest(params: Arg<()>, present: string -> bool, expand: string -> string)
    requires !params.WrongType?
    ensures Classify(params, Missing, present, expand) == Ok(Selector("latest"))
    ensures Classify(params, Given(""), present, expand) == Ok(Selector("latest"))
  {
    TrimLatest();
  }

  /** A `file://` URI names a local file: a missing file is reported before a name
      without the `.zip` extension. */
  lemma FileUriChecks(params: Arg<()>, file: string, present: string -> bool, expand: string -> string)
    requires !params.WrongType? && file != "" && NoLineTerminator(file)
    ensures var f := expand(file);
            Classify(params, Given("file://" + file), present, expand) ==
              if !present(f) then Err(FileUriMissing)
              else if !EndsWith(f, ".zip") then Err(FileUriNotZip)
              else Ok(LocalZip(f))
  {
    FileUriAnywhere("", file);
    assert "" + "file://" + file == "file://" + file;
  }

  /** A URL that does not name an existing path is downloaded as it is. */
  lemma UrlIsRemote(params: Arg<()>, scheme: string, rest: string, present: string -> bool, expand: string -> string)
    requires !params.WrongType?
    requires scheme == "http://" || scheme == "https://"
    requires rest != "" && NoLineTerminator(rest)
    requires !present(scheme + rest)
    ensures Classify(params, Given(scheme + rest), present, expand) == Ok(Remote(scheme + rest))
  {
    HttpUriMatch(scheme, rest);
  }

  /** Anything else that names no existing path is a selector, trimmed. */
  lemma OtherIsSelector(params: Arg<()>, s: string, present: string -> bool, expand: string -> string)
    requires !params.WrongType? && s != "" && MatchUri(s) == NoUri && !present(s)
    ensures Classify(params, Given(s), present, expand) == Ok(Selector(Trim(s)))
  {
  }

  /** The checks of `install` in the source's order: `params`, then the type of
      the URI, then the local file; nothing else fails. */
  lemma ClassifyErrors(params: Arg<()>, uri: Arg<string>, present: string -> bool, expand: string -> string)
    ensures var r := Classify(params, uri, present, expand);
            (params.WrongType? ==> r == Err(ParamsNotObject)) &&
            (!params.WrongType? && uri.WrongType? ==> r == Err(UriNotString)) &&
            (r.Err? ==> r.error in {ParamsNotObject, UriNotString, FileUriMissing, FileUriNotZip})
  {
  }

  /* ---------- selectors ---------- */

  /** The JSON of the branch list: the branch names and the default one. */
  datatype BranchInfo = BranchInfo(branches: seq<string>, defaultBranch: string)

  /** The class `[A-Za-z0-9_]`. */
  predicate IsWordChar(c: char) {
    'A' <= c <= 'Z' || 'a' <= c <= 'z' || '0' <= c <= '9' || c == '_'
  }

  predicate IsWord(s: string) {
    forall i :: 0 <= i < |s| ==> IsWordChar(s[i])
  }

  /** The first position at or after `i` that does not hold a word character. */
  function WordEnd(s: string, i: nat): (r: nat)
    requires i <= |s|
    ensures i <= r <= |s| && IsWord(s[i..r])
    ensures r < |s| ==> !IsWordChar(s[r])
    decreases |s| - i
  {
    if i == |s| || !IsWordChar(s[i]) then i
    else
      var r := WordEnd(s, i + 1);
      assert s[i..r] == [s[i]] + s[i + 1..r];
      r
  }

  /** `ver.match(/^([A-Za-z0-9_]+?):(.+)$/)`: a word, the first colon, and a
      non-empty single-line rest (which may hold more colons). */
  function BranchHash(s: string): (r: Option<(string, string)>)
    ensures r.Some? ==> s == r.value.0 + ":" + r.value.1
    ensures r.Some? ==> r.value.0 != "" && IsWord(r.value.0) && r.value.1 != "" && NoLineTerminator(r.value.1)
  {
    var j := WordEnd(s, 0);
    if 0 < j && j + 1 < |s| && s[j] == ':' && NoLineTerminator(s[j + 1..]) then
      assert s == s[..j] + ":" + s[j + 1..];
      Some((s[..j], s[j + 1..]))
    else None
  }

  /** Every `<branch>:<rest>` with a word for a branch splits at its first colon. */
  lemma BranchHashOf(b: string, rest: string)
    requires b != "" && IsWord(b) && rest != "" && NoLineTerminator(rest)
    ensures BranchHash(b + ":" + rest) == Some((b, rest))
  {
    var s := b + ":" + rest;
    assert s[..|b|] == b && s[|b|] == ':' && s[|b| + 1..] == rest;
    var j := WordEnd(s, 0);
  }

  /** The branches to search and the target within them. */
  datatype Target = Target(branches: seq<string>, ver: string)

  /** `branch:hash` restricts the search to a known branch and looks for the rest;
      a bare known branch means its latest build. */
  function Narrow(ver: string, branches: seq<string>): Result<Target> {
    if ver == "" then Ok(Target(branches, ver))
    else match BranchHash(ver)
      case Some((b, rest)) => if b in branches then Ok(Target([b], rest)) else Err(InvalidBranch(b))
      case None => if ver in branches then Ok(Target([ver], "latest")) else Ok(Target(branches, ver))
  }

  /* ---------- branch order ---------- */

  /** The branch comparator as written: `a === defaultBranch ? -1 : b.localeCompare(a)`. */
  function BranchCompareAsWritten(a: string, b: string, d: string): int {
    if a == d then -1 else LocaleCompare(b, a)
  }

  /** It is not a consistent comparator: with the default branch `7_5_X`, it asks for
      `master` before `7_5_X` and for `7_5_X` before `master`, so where the default
      ends up depends on the sort algorithm. */
  lemma BranchCompareAsWrittenInconsistent()
    ensures BranchCompareAsWritten("master", "7_5_X", "7_5_X") < 0
    ensures BranchCompareAsWritten("7_5_X", "master", "7_5_X") < 0
  {
    assert "7_5_X"[0] == '7' && "master"[0] == 'm';
    assert LexLess("7_5_X", "master");
  }

  /** The intended comparator: the default branch first, the others in reverse
      name order. */
  function BranchCompare(a: string, b: string, d: string): int {
    if a == b then 0
    else if a == d then -1
    else if b == d then 1
    else LocaleCompare(b, a)
  }

  function BranchOrder(d: string): (string, string) -> bool {
    (a: string, b: string) => BranchCompare(a, b, d) <= 0
  }

  /** The corrected comparator is antisymmetric, and it is a total preorder. */
  lemma BranchCompareConsistent(d: string)
    ensures forall a, b :: BranchCompare(a, b, d) < 0 <==> BranchCompare(b, a, d) > 0
    ensures Sorting.Total(BranchOrder(d)) && Sorting.Transitive(BranchOrder(d))
  {
    forall a, b ensures BranchCompare(a, b, d) < 0 <==> BranchCompare(b, a, d) > 0 {
      LexTrichotomy(a, b);
    }
    forall a, b, c | BranchOrder(d)(a, b) && BranchOrder(d)(b, c) ensures BranchOrder(d)(a, c) {
      LexTrichotomy(a, b);
      LexTrichotomy(b, c);
      LexTrichotomy(a, c);
      if a != d && b != d && c != d && a != b && b != c {
        LexLessTransitive(c, b, a);
      }
    }
  }

  function SortBranches(bs: seq<string>, d: string): seq<string> {
    Sorting.Sort(bs, BranchOrder(d))
  }

  /** After sorting, a present default branch comes first and the other branches
      follow in reverse name order. */
  lemma SortedBranches(bs: seq<string>, d: string)
    ensures var s := SortBranches(bs, d);
            multiset(s) == multiset(bs) &&
            (d in bs ==> s[0] == d) &&
            forall i, j :: 0 <= i < j < |s| && s[i] != d && s[j] != d ==> !LexLess(s[i], s[j])
  {
    var s := SortBranches(bs, d);
    BranchCompareConsistent(d);
    Sorting.SortSorted(bs, BranchOrder(d));
    if d in bs {
      assert d in multiset(s);
      Sorting.SortedHeadFirst(s, BranchOrder(d), d);
    }
    forall i, j | 0 <= i < j < |s| && s[i] != d && s[j] != d ensures !LexLess(s[i], s[j]) {
      assert BranchOrder(d)(s[i], s[j]);
      LexTrichotomy(s[i], s[j]);
    }
  }

  /* ---------- build order and search ---------- */

  const NoBuild := Build("", "", "", Stamp("", "", "", "", "", ""), "")

  function BuildAt(d: Dict<Build>, name: string): Build {
    if name in d.vals then d.vals[name] else NoBuild
  }

  /** `sortBuilds(a, b)`: `rcompare` on the versions, and on equal versions the
      timestamps in reverse order. */
  function SortBuildsCompare(x: Build, y: Build): Result<int> {
    var r :- Version.RCompare(x.version, y.version);
    Ok(if r == 0 then LocaleCompare(y.ts, x.ts) else r)
  }

  /** The order the sort establishes: higher version first, then later timestamp. */
  predicate BuildBefore(x: Build, y: Build) {
    var a := Version.CoreOf(x.version).GetOr(Version.Triple(0, 0, 0));
    var b := Version.CoreOf(y.version).GetOr(Version.Triple(0, 0, 0));
    Version.TripleLess(b, a) || (a == b && !LexLess(x.ts, y.ts))
  }

  /** On valid versions, `sortBuilds(x, y) <= 0` exactly when `x` may come first. */
  lemma SortBuildsMeaning(x: Build, y: Build)
    requires Version.Valid(x.version) && Version.Valid(y.version)
    ensures SortBuildsCompare(x, y).Ok?
    ensures SortBuildsCompare(x, y).value <= 0 <==> BuildBefore(x, y)
  {
    Version.RCompareMeaning(x.version, y.version);
    Version.TripleTrichotomy(Version.CoreOf(x.version).value, Version.CoreOf(y.version).value);
    LexTrichotomy(x.ts, y.ts);
  }

  function NameOrder(d: Dict<Build>): (string, string) -> bool {
    (a: string, b: string) => BuildBefore(BuildAt(d, a), BuildAt(d, b))
  }

  lemma NameOrderConsistent(d: Dict<Build>)
    ensures Sorting.Total(NameOrder(d)) && Sorting.Transitive(NameOrder(d))
  {
    forall a, b ensures NameOrder(d)(a, b) || NameOrder(d)(b, a) {
      var x, y := BuildAt(d, a), BuildAt(d, b);
      Version.TripleTrichotomy(Version.CoreOf(x.version).GetOr(Version.Triple(0, 0, 0)),
                               Version.CoreOf(y.version).GetOr(Version.Triple(0, 0, 0)));
      LexTrichotomy(x.ts, y.ts);
    }
    forall a, b, c | NameOrder(d)(a, b) && NameOrder(d)(b, c) ensures NameOrder(d)(a, c) {
      var x, y, z := BuildAt(d, a), BuildAt(d, b), BuildAt(d, c);
      LexTrichotomy(x.ts, y.ts);
      LexTrichotomy(y.ts, z.ts);
      LexTrichotomy(x.ts, z.ts);
      if !LexLess(x.ts, y.ts) && !LexLess(y.ts, z.ts) && LexLess(x.ts, z.ts) {
        LexLessTransitive(z.ts, y.ts, x.ts);
      }
    }
  }

  /** `Object.keys(builds).sort(sortBuilds)`: sorting two or more names compares
      every one of them, so a build with an invalid version makes it throw. */
  function SortedNames(d: Dict<Build>): Result<seq<string>> {
    if |d.keys| >= 2 && exists k :: k in d.keys && !Version.Valid(BuildAt(d, k).version) then Err(InvalidVersion)
    else Ok(Sorting.Sort(d.keys, NameOrder(d)))
  }

  predicate BuildMatches(d: Dict<Build>, name: string, ver: string) {
    ver == "latest" || name == ver || BuildAt(d, name).githash == ver
  }

  /** The first name from `i` on that the target selects. */
  function FirstMatch(names: seq<string>, d: Dict<Build>, ver: string, i: nat): (r: Option<nat>)
    requires i <= |names|
    ensures r.Some? ==> i <= r.value < |names| && BuildMatches(d, names[r.value], ver)
    ensures r.Some? ==> forall j :: i <= j < r.value ==> !BuildMatches(d, names[j], ver)
    ensures r.None? ==> forall j :: i <= j < |names| ==> !BuildMatches(d, names[j], ver)
    decreases |names| - i
  {
    if i == |names| then None
    else if BuildMatches(d, names[i], ver) then Some(i)
    else FirstMatch(names, d, ver, i + 1)
  }

  /** The URL one branch's catalog yields for the target; "" stands for none. */
  function SearchBuilds(d: Dict<Build>, ver: string): Result<string> {
    var names :- SortedNames(d);
    match FirstMatch(names, d, ver, 0)
    case Some(i) => Ok(BuildAt(d, names[i]).url)
    case None => Ok("")
  }

  /** In one catalog, `latest` picks a build that no other build precedes: the
      highest version, and among equal versions the latest timestamp. */
  lemma LatestBuildIsNewest(d: Dict<Build>)
    requires d.Valid() && d.keys != [] && SortedNames(d).Ok?
    ensures var names := SortedNames(d).value;
            names != [] && names[0] in d.vals && SearchBuilds(d, "latest") == Ok(d.vals[names[0]].url) &&
            forall k :: k in d.vals ==> BuildBefore(d.vals[names[0]], d.vals[k])
  {
    var names := SortedNames(d).value;
    assert names[0] in multiset(names);
    assert names[0] in d.keys;
    NameOrderConsistent(d);
    Sorting.SortSorted(d.keys, NameOrder(d));
    forall k | k in d.vals ensures BuildBefore(d.vals[names[0]], d.vals[k]) {
      assert k in multiset(d.keys);
      Sorting.SortedHeadFirst(names, NameOrder(d), k);
    }
  }

  /** The search over the branches in order: a branch's catalog is fetched only
      while no URL has been found. `fetch` is the build index request. */
  function SearchBranches(urls: Urls, os: string, branches: seq<string>, ver: string,
                          fetch: string -> seq<BuildRecord>): Result<string>
    decreases |branches|
  {
    if branches == [] then Ok("")
    else
      var d :- BuildsFor(urls, os, Given(branches[0]), fetch);
      var url :- SearchBuilds(d, ver);
      if url != "" then Ok(url) else SearchBranches(urls, os, branches[1..], ver, fetch)
  }

  /** One step of the search: when both index requests agree on the first
      branch, the searches agree if that branch yields a URL or if they agree on
      the remaining branches. */
  lemma SearchStep(urls: Urls, os: string, branches: seq<string>, ver: string,
                   f: string -> seq<BuildRecord>, g: string -> seq<BuildRecord>)
    requires branches != [] && f(IndexUrl(urls, branches[0])) == g(IndexUrl(urls, branches[0]))
    requires var d := BuildsFor(urls, os, Given(branches[0]), f);
             (d.Ok? && SearchBuilds(d.value, ver).Ok? && SearchBuilds(d.value, ver).value != "") ||
             SearchBranches(urls, os, branches[1..], ver, f) == SearchBranches(urls, os, branches[1..], ver, g)
    ensures SearchBranches(urls, os, branches, ver, f) == SearchBranches(urls, os, branches, ver, g)
  {
    assert BuildsFor(urls, os, Given(branches[0]), f) == BuildsFor(urls, os, Given(branches[0]), g);
  }

  /** The first branch that yields a URL decides: what later branches' indexes hold
      makes no difference. */
  lemma {:induction false} SearchStopsAtFirst(urls: Urls, os: string, branches: seq<string>, ver: string,
                                              f: string -> seq<BuildRecord>, g: string -> seq<BuildRecord>, k: nat)
    requires k < |branches|
    requires forall i :: 0 <= i <= k ==> f(IndexUrl(urls, branches[i])) == g(IndexUrl(urls, branches[i]))
    requires var d := BuildsFor(urls, os, Given(branches[k]), f);
             d.Ok? && SearchBuilds(d.value, ver).Ok? && SearchBuilds(d.value, ver).value != ""
    ensures SearchBranches(urls, os, branches, ver, f) == SearchBranches(urls, os, branches, ver, g)
    decreases k
  {
    if k > 0 {
      var rest := branches[1..];
      forall i | 0 <= i <= k - 1 ensures f(IndexUrl(urls, rest[i])) == g(IndexUrl(urls, rest[i])) {
        assert rest[i] == branches[i + 1];
      }
      assert rest[k - 1] == branches[k];
      SearchStopsAtFirst(urls, os, rest, ver, f, g, k - 1);
    }
    SearchStep(urls, os, branches, ver, f, g);
  }

  /* ---------- the whole resolution ---------- */

  /** The URL of a release selected as `ver` or `ver.GA`. */
  function ReleaseUrl(rel: Dict<Release>, ver: string): string
    requires ver in rel.vals || ver + ".GA" in rel.vals
  {
    if ver in rel.vals then rel.vals[ver].url else rel.vals[ver + ".GA"].url
  }

  predicate IsRelease(rel: Dict<Release>, ver: string) {
    ver != "" && (ver in rel.vals || ver + ".GA" in rel.vals)
  }

  /** The URL a selector resolves to. `releases` is the outcome of `getReleases()`,
      `info` the branch list; `uriText` is `params.uri` as the message prints it. */
  function ResolveSpec(ver: string, uriText: string, releases: Result<Dict<Release>>, info: BranchInfo,
                       urls: Urls, os: string, fetch: string -> seq<BuildRecord>): Result<string>
  {
    var rel :- releases;
    var url :- Lookup(ver, rel, info, urls, os, fetch);
    if url == "" then Err(NoMatch(uriText)) else Ok(url)
  }

  /** The URL found for a selector, "" when none. */
  function Lookup(ver: string, rel: Dict<Release>, info: BranchInfo,
                  urls: Urls, os: string, fetch: string -> seq<BuildRecord>): Result<string>
  {
    if IsRelease(rel, ver) then Ok(ReleaseUrl(rel, ver))
    else
      var t :- Narrow(ver, info.branches);
      SearchBranches(urls, os, SortBranches(t.branches, info.defaultBranch), t.ver, fetch)
  }

  /** The branch search fails only on a branch name that is not a non-empty string
      or on a build with an invalid version. */
  lemma {:induction false} SearchBranchesErrors(urls: Urls, os: string, branches: seq<string>, ver: string,
                                                fetch: string -> seq<BuildRecord>)
    ensures var r := SearchBranches(urls, os, branches, ver, fetch);
            r.Err? ==> r.error == BranchNotString || r.error == InvalidVersion
    decreases |branches|
  {
    if branches != [] {
      var d := BuildsFor(urls, os, Given(branches[0]), fetch);
      assert d.Err? ==> d.error == BranchNotString;
      if d.Ok? {
        SearchBuildsErrors(d.value, ver);
        SearchBranchesErrors(urls, os, branches[1..], ver, fetch);
      }
    }
  }

  lemma SearchBuildsErrors(d: Dict<Build>, ver: string)
    ensures SearchBuilds(d, ver).Err? ==> SearchBuilds(d, ver).error == InvalidVersion
  {
  }

  /** A release wins before any CI lookup: the branch list and the build indexes
      play no part. */
  lemma ReleaseWins(ver: string, uriText: string, rel: Dict<Release>, info: BranchInfo, info': BranchInfo,
                    urls: Urls, os: string, fetch: string -> seq<BuildRecord>, fetch': string -> seq<BuildRecord>)
    requires IsRelease(rel, ver)
    ensures ResolveSpec(ver, uriText, Ok(rel), info, urls, os, fetch) ==
            ResolveSpec(ver, uriText, Ok(rel), info', urls, os, fetch')
    ensures ver in rel.vals && rel.vals[ver].url != "" ==>
              ResolveSpec(ver, uriText, Ok(rel), info, urls, os, fetch) == Ok(rel.vals[ver].url)
    ensures ver !in rel.vals && rel.vals[ver + ".GA"].url != "" ==>
              ResolveSpec(ver, uriText, Ok(rel), info, urls, os, fetch) == Ok(rel.vals[ver + ".GA"].url)
  {
  }

  /** `branch:rest` with an unknown branch is rejected. */
  lemma UnknownBranchRejected(b: string, rest: string, uriText: string, rel: Dict<Release>, info: BranchInfo,
                              urls: Urls, os: string, fetch: string -> seq<BuildRecord>)
    requires b != "" && IsWord(b) && rest != "" && NoLineTerminator(rest)
    requires !IsRelease(rel, b + ":" + rest) && b !in info.branches
    ensures ResolveSpec(b + ":" + rest, uriText, Ok(rel), info, urls, os, fetch) == Err(InvalidBranch(b))
  {
    BranchHashOf(b, rest);
  }

  /** `branch:rest` with a known branch searches only that branch, for `rest`. */
  lemma KnownBranchRestricts(b: string, rest: string, uriText: string, rel: Dict<Release>, info: BranchInfo,
                             urls: Urls, os: string, fetch: string -> seq<BuildRecord>)
    requires b != "" && IsWord(b) && rest != "" && NoLineTerminator(rest)
    requires !IsRelease(rel, b + ":" + rest) && b in info.branches
    ensures var url := SearchBranches(urls, os, [b], rest, fetch);
            ResolveSpec(b + ":" + rest, uriText, Ok(rel), info, urls, os, fetch) ==
              if url.Err? then url else if url.value == "" then Err(NoMatch(uriText)) else url
  {
    BranchHashOf(b, rest);
    assert SortBranches([b], info.defaultBranch) == [b];
  }

  /** A bare known branch selects the latest build of that branch only. */
  lemma BareBranchIsLatest(ver: string, uriText: string, rel: Dict<Release>, info: BranchInfo,
                           urls: Urls, os: string, fetch: string -> seq<BuildRecord>)
    requires ver != "" && BranchHash(ver).None? && !IsRelease(rel, ver) && ver in info.branches
    ensures var url := SearchBranches(urls, os, [ver], "latest", fetch);
            ResolveSpec(ver, uriText, Ok(rel), info, urls, os, fetch) ==
              if url.Err? then url else if url.value == "" then Err(NoMatch(uriText)) else url
  {
    assert SortBranches([ver], info.defaultBranch) == [ver];
  }

  /** When nothing matches, the error quotes the URI as given, not the trimmed
      selector. */
  lemma NoMatchQuotesUri(ver: string, uriText: string, releases: Result<Dict<Release>>, info: BranchInfo,
                         urls: Urls, os: string, fetch: string -> seq<BuildRecord>)
    requires releases.Err? ==> !releases.error.NoMatch?
    ensures var r := ResolveSpec(ver, uriText, releases, info, urls, os, fetch);
            r.Err? && r.error.NoMatch? ==> r.error.uriText == uriText
    ensures var r := ResolveSpec(ver, uriText, releases, info, urls, os, fetch);
            r.Ok? ==> r.value != ""
  {
    if releases.Ok? && !IsRelease(releases.value, ver) {
      var t := Narrow(ver, info.branches);
      if t.Ok? {
        SearchBranchesErrors(urls, os, SortBranches(t.value.branches, info.defaultBranch), t.value.ver, fetch);
      }
    }
  }

  /** The build loop of one branch: the first sorted name the target selects. */
  method FindBuild(names: seq<string>, d: Dict<Build>, ver: string) returns (url: string)
    ensures url == match FirstMatch(names, d, ver, 0)
                   case Some(i) => BuildAt(d, names[i]).url
                   case None => ""
  {
    var i := 0;
    while i < |names|
      invariant 0 <= i <= |names|
      invariant FirstMatch(names, d, ver, 0) == FirstMatch(names, d, ver, i)
    {
      var name := names[i];
      if ver == "latest" || name == ver || BuildAt(d, name).githash == ver {
        return BuildAt(d, name).url;
      }
      i := i + 1;
    }
    return "";
  }

  /** The resolution of a selector as `install` performs it: the release lookup,
      the narrowing to one branch, the in-place sort of the branch list and the
      chain over the branches. */
  method ResolveSelector(ver: string, uriText: string, releases: Result<Dict<Release>>, info: BranchInfo,
                         urls: Urls, os: string, fetch: string -> seq<BuildRecord>)
    returns (r: Result<string>)
    ensures r == ResolveSpec(ver, uriText, releases, info, urls, os, fetch)
  {
    var rel :- releases;
    var url := "";
    if ver != "" && (ver in rel.vals || ver + ".GA" in rel.vals) {
      url := (if ver in rel.vals then rel.vals[ver] else rel.vals[ver + ".GA"]).url;
    } else {
      var t :- Narrow(ver, info.branches);
      var branches := SortBranches(t.branches, info.defaultBranch);
      ghost var whole := SearchBranches(urls, os, branches, t.ver, fetch);
      var i := 0;
      while i < |branches|
        invariant 0 <= i <= |branches|
        invariant whole == if url != "" then Ok(url) else SearchBranches(urls, os, branches[i..], t.ver, fetch)
      {
        if url == "" {
          assert branches[i..][1..] == branches[i + 1..];
          var d :- BuildsFor(urls, os, Given(branches[i]), fetch);
          var names :- SortedNames(d);
          url := FindBuild(names, d, t.ver);
        }
        i := i + 1;
      }
    }
    if url == "" {
      return Err(NoMatch(uriText));
    }
    return Ok(url);
  }

  /* ---------- download file name ---------- */

  /** The last `/` before position `n`. */
  function LastSlash(s: string, n: nat): (r: Option<nat>)
    requires n <= |s|
    ensures r.Some? ==> r.value < n && s[r.value] == '/' && forall j :: r.value < j < n ==> s[j] != '/'
    ensures r.None? ==> forall j :: 0 <= j < n ==> s[j] != '/'
  {
    if n == 0 then None
    else if s[n - 1] == '/' then Some(n - 1)
    else LastSlash(s, n - 1)
  }

  /** `url.match(/.*\/(.+\.zip)$/)[1]`: the text after the last `/` that leaves at
      least five characters, when it ends in `.zip` and the match stays on one line. */
  function DownloadName(url: string): (r: Option<string>)
    ensures r.Some? ==> EndsWith(r.value, ".zip") && |r.value| >= 5 && NoLineTerminator(r.value)
    ensures r.Some? ==> |r.value| < |url| && url == url[..|url| - |r.value| - 1] + "/" + r.value
  {
    if |url| < 6 || !EndsWith(url, ".zip") then None
    else match LastSlash(url, |url| - 5)
      case None => None
      case Some(j) =>
        if NoLineTerminator(url[j..]) then
          assert url[j + 1..][|url[j + 1..]| - 4..] == url[|url| - 4..];
          assert url == url[..j] + "/" + url[j + 1..];
          Some(url[j + 1..])
        else None
  }

  /** A URL whose last path segment is a one-line `<name>.zip` downloads to that
      name. */
  lemma DownloadNameOf(base: string, name: string)
    requires '/' !in name && EndsWith(name, ".zip") && |name| >= 5 && NoLineTerminator(name)
    ensures DownloadName(base + "/" + name) == Some(name)
  {
    var url := base + "/" + name;
    assert url[|base|] == '/';
    assert url[|base| + 1..] == name;
    assert url[|url| - 4..] == name[|name| - 4..];
    forall j | |base| < j < |url| - 5 ensures url[j] != '/' {
      assert url[j] == name[j - |base| - 1];
    }
    assert LastSlash(url, |url| - 5) == Some(|base|);
    forall k | 0 <= k < |url[|base|..]| ensures !IsLineTerminator(url[|base|..][k]) {
      if k > 0 {
        assert url[|base|..][k] == name[k - 1];
      }
    }
  }
}
