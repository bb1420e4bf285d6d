/** The two remote catalogs: CI builds of a branch (`getBuilds`) and GA releases
    (`getReleases`). The fetched JSON is an input; the model reads the records and
    builds the result dictionaries exactly as the source's loops do. */
module Catalog {
  import opened Base
  import opened Text
  import opened Dict
  import Version
  import Sorting

  /** The URL templates of the settings record. */
  datatype Urls = Urls(branches: string, build: string, builds: string, releases: string)

  const DefaultUrls := Urls(
    "http://builds.appcelerator.com/mobile/branches.json",
    BuildsHost + "<BRANCH>" + "/<FILENAME>",
    BuildsHost + "<BRANCH>" + "/index.json",
    "https://s3-us-west-2.amazonaws.com/appc-mobilesdk-server/releases.json")

  /* ---------- CI build file names ---------- */

  const CiPrefix := "mobilesdk-"

  /** 14 digits, a dash, and one character that is not a dot, from `k` on. */
  predicate StampAt(f: string, k: nat) {
    k + 16 <= |f| && AllDigits(f[k..k + 14]) && f[k + 14] == '-' && f[k + 15] != '.'
  }

  /** Where the timestamp starts when the version ends at `j`. */
  function StampStart(f: string, j: nat): nat {
    if OccursAt(f, ".v", j) then j + 2 else j + 1
  }

  /** The version group `(.+)` can end at `j`: it holds no line terminator and is
      followed by `.v` or `-` and a timestamp. */
  predicate TailAt(f: string, j: nat) {
    11 <= j < |f| && NoLineTerminator(f[10..j]) &&
    ((OccursAt(f, ".v", j) && StampAt(f, j + 2)) || (f[j] == '-' && StampAt(f, j + 1)))
  }

  /** The greedy `(.+)` takes the last position where the rest of the pattern fits. */
  function LastTail(f: string, j: nat): (r: Option<nat>)
    ensures r.Some? ==> r.value <= j && TailAt(f, r.value)
    ensures r.Some? ==> forall k :: r.value < k <= j ==> !TailAt(f, k)
    ensures r.None? ==> forall k :: 0 <= k <= j ==> !TailAt(f, k)
  {
    if j < 11 then None
    else if TailAt(f, j) then Some(j)
    else LastTail(f, j - 1)
  }

  datatype CiName = CiName(version: string, ts: string)

  /** `filename.match(ciBuildRegExp)`: groups 1 (the version) and 2 (the timestamp). */
  function CiMatch(f: string): (r: Option<CiName>)
    ensures r.Some? ==> r.value.version != "" && NoLineTerminator(r.value.version)
    ensures r.Some? ==> |r.value.ts| == 14 && AllDigits(r.value.ts)
  {
    if !StartsWith(f, CiPrefix) then None
    else match LastTail(f, |f|)
      case None => None
      case Some(j) =>
        var d := StampStart(f, j);
        assert StampAt(f, d);
        Some(CiName(f[10..j], f[d..d + 14]))
  }

  /** The six digit groups the date is built from: year, month, day, hour, minute,
      second. */
  datatype Stamp = Stamp(year: string, month: string, day: string, hour: string, minute: string, second: string)

  function StampOf(ts: string): Stamp
    requires |ts| == 14
  {
    Stamp(ts[0..4], ts[4..6], ts[6..8], ts[8..10], ts[10..12], ts[12..14])
  }

  lemma OccursInside(s: string, pre: string, mid: string, post: string, p: string, k: nat)
    requires s == pre + mid + post && |pre| <= k && k + |p| <= |pre| + |mid|
    requires OccursAt(s, p, k)
    ensures OccursAt(mid, p, k - |pre|)
  {
    assert s[k..k + |p|] == mid[k - |pre|..k - |pre| + |p|];
  }

  /** A CI file name `mobilesdk-<version>.v<timestamp>-<rest>` yields its version and
      timestamp, when the rest (the platform and extension) has no dash, no `.v` and
      does not start with a digit or a dot. */
  lemma CiMatchName(v: string, ts: string, rest: string)
    requires v != "" && NoLineTerminator(v)
    requires |ts| == 14 && AllDigits(ts)
    requires rest != "" && rest[0] != '.' && !IsDigit(rest[0]) && '-' !in rest && !Contains(rest, ".v")
    ensures CiMatch(CiPrefix + v + ".v" + ts + "-" + rest) == Some(CiName(v, ts))
  {
    var f := CiPrefix + v + ".v" + ts + "-" + rest;
    var j := 10 + |v|;
    assert f[..10] == CiPrefix;
    assert f[10..j] == v;
    assert f[j..j + 2] == ".v";
    assert f[j + 2..j + 16] == ts;
    assert f[j + 16] == '-' && f[j + 17] == rest[0];
    assert TailAt(f, j);
    forall k | j < k <= |f| ensures !TailAt(f, k) {
      if k == j + 1 {
        assert f[k] == 'v';
      } else if k < j + 16 {
        assert f[k] == ts[k - j - 2];
        assert IsDigit(f[k]);
      } else if k == j + 16 {
        assert f[k + 1] == rest[0];
      } else if k < |f| {
        var o := j + 17;
        assert f == (CiPrefix + v + ".v" + ts + "-") + rest + "";
        assert f[k] == rest[k - o];
        if OccursAt(f, ".v", k) {
          OccursInside(f, CiPrefix + v + ".v" + ts + "-", rest, "", ".v", k);
        }
      }
    }
    assert StampStart(f, j) == j + 2;
  }

  /* ---------- getBuilds ---------- */

  /** One record of a branch's build index. A missing file name is "". */
  datatype BuildRecord = BuildRecord(buildType: string, filename: string, gitBranch: string, gitRevision: string)

  datatype Build = Build(version: string, ts: string, githash: string, date: Stamp, url: string)

  /** A record becomes a build when it is a mobile build, its file name matches the
      CI pattern, and the file name mentions `-<os>`. */
  predicate Kept(rec: BuildRecord, os: string) {
    rec.buildType == "mobile" && CiMatch(rec.filename).Some? && Contains(rec.filename, "-" + os)
  }

  /** The result key: `<version>.v<timestamp>`. */
  function BuildName(rec: BuildRecord): string
    requires CiMatch(rec.filename).Some?
  {
    var m := CiMatch(rec.filename).value;
    m.version + ".v" + m.ts
  }

  /** `urls.builds.replace(/<BRANCH>/, branch)` */
  function IndexUrl(urls: Urls, branch: string): string {
    ReplaceFirst(urls.builds, "<BRANCH>", branch)
  }

  /** The download URL: the first `<BRANCH>` of the template is replaced by the
      record's branch, then the first `<FILENAME>` by the file name. */
  function BuildUrl(urls: Urls, rec: BuildRecord): string {
    ReplaceFirst(ReplaceFirst(urls.build, "<BRANCH>", rec.gitBranch), "<FILENAME>", rec.filename)
  }

  function BuildOf(urls: Urls, rec: BuildRecord): (b: Build)
    requires CiMatch(rec.filename).Some?
    ensures BuildName(rec) == b.version + ".v" + b.ts
  {
    var m := CiMatch(rec.filename).value;
    Build(m.version, m.ts, rec.gitRevision, StampOf(m.ts), BuildUrl(urls, rec))
  }

  /** The result of the loop over `recs`, starting from `acc`. */
  function AddBuilds(urls: Urls, os: string, recs: seq<BuildRecord>, acc: Dict<Build>): (r: Dict<Build>)
    requires acc.Valid()
    ensures r.Valid()
    decreases |recs|
  {
    if recs == [] then acc
    else
      var rec := recs[0];
      var acc' := if Kept(rec, os) then acc.Put(BuildName(rec), BuildOf(urls, rec)) else acc;
      AddBuilds(urls, os, recs[1..], acc')
  }

  function BuildsOf(urls: Urls, os: string, recs: seq<BuildRecord>): Dict<Build> {
    AddBuilds(urls, os, recs, Empty())
  }

  lemma {:induction false} AddBuildsAppend(urls: Urls, os: string, recs: seq<BuildRecord>,
                                           rec: BuildRecord, acc: Dict<Build>)
    requires acc.Valid()
    ensures AddBuilds(urls, os, recs + [rec], acc) ==
            var d := AddBuilds(urls, os, recs, acc);
            if Kept(rec, os) then d.Put(BuildName(rec), BuildOf(urls, rec)) else d
    decreases |recs|
  {
    if recs == [] {
      assert [rec][1..] == [];
    } else {
      assert (recs + [rec])[1..] == recs[1..] + [rec];
      var acc' := if Kept(recs[0], os) then acc.Put(BuildName(recs[0]), BuildOf(urls, recs[0])) else acc;
      AddBuildsAppend(urls, os, recs[1..], rec, acc');
    }
  }

  /** One more record of the loop: the build it adds, if it is kept. */
  lemma BuildsNext(urls: Urls, os: string, recs: seq<BuildRecord>, i: nat)
    requires i < |recs|
    ensures var d := BuildsOf(urls, os, recs[..i]);
            BuildsOf(urls, os, recs[..i + 1]) ==
              if Kept(recs[i], os) then d.Put(BuildName(recs[i]), BuildOf(urls, recs[i])) else d
  {
    assert recs[..i + 1] == recs[..i] + [recs[i]];
    AddBuildsAppend(urls, os, recs[..i], recs[i], Empty());
  }

  /** The branch argument: `undefined` means "master"; anything else must be a
      non-empty string. */
  function BranchArg(branch: Arg<string>): Result<string> {
    match branch
    case Missing => Ok("master")
    case Given(b) => if b == "" then Err(BranchNotString) else Ok(b)
    case WrongType => Err(BranchNotString)
  }

  /** What `getBuilds(branch)` resolves to. `fetch` stands for the HTTP request: it
      maps the index URL to the records it returns. */
  function BuildsFor(urls: Urls, os: string, branch: Arg<string>, fetch: string -> seq<BuildRecord>): Result<Dict<Build>> {
    var b :- BranchArg(branch);
    Ok(BuildsOf(urls, os, fetch(IndexUrl(urls, b))))
  }

  /** `getBuilds(branch)` */
  method GetBuilds(urls: Urls, os: string, branch: Arg<string>, fetch: string -> seq<BuildRecord>)
    returns (r: Result<Dict<Build>>)
    ensures r.Err? <==> BranchArg(branch).Err?
    ensures r.Err? ==> r.error == BranchNotString
    ensures r == BuildsFor(urls, os, branch, fetch)
  {
    var b :- BranchArg(branch);
    var builds := fetch(IndexUrl(urls, b));
    var results := Empty<Build>();
    var i := 0;
    while i < |builds|
      invariant 0 <= i <= |builds|
      invariant results.Valid()
      invariant results == BuildsOf(urls, os, builds[..i])
    {
      var rec := builds[i];
      BuildsNext(urls, os, builds, i);
      if Kept(rec, os) {
        results := results.Put(BuildName(rec), BuildOf(urls, rec));
      }
      i := i + 1;
    }
    assert builds[..|builds|] == builds;
    return Ok(results);
  }

  /** Some record among the first `n` is kept and named `k`. */
  predicate NamedAmong(os: string, recs: seq<BuildRecord>, n: nat, k: string)
    requires n <= |recs|
  {
    exists i :: 0 <= i < n && Kept(recs[i], os) && BuildName(recs[i]) == k
  }

  lemma NamedAmongNext(os: string, recs: seq<BuildRecord>, n: nat, k: string)
    requires n < |recs|
    ensures NamedAmong(os, recs, n + 1, k) <==>
            NamedAmong(os, recs, n, k) || (Kept(recs[n], os) && BuildName(recs[n]) == k)
  {
  }

  /** Keys of the result over the first `n` records. */
  lemma {:induction false} BuildsKeysAmong(urls: Urls, os: string, recs: seq<BuildRecord>, n: nat, k: string)
    requires n <= |recs|
    ensures k in BuildsOf(urls, os, recs[..n]).vals <==> NamedAmong(os, recs, n, k)
  {
    if n > 0 {
      BuildsKeysAmong(urls, os, recs, n - 1, k);
      BuildsNext(urls, os, recs, n - 1);
      NamedAmongNext(os, recs, n - 1, k);
    }
  }

  /** A name is a key of the result exactly when some kept record has that name. */
  lemma BuildsKeys(urls: Urls, os: string, recs: seq<BuildRecord>, k: string)
    ensures k in BuildsOf(urls, os, recs).vals <==>
            exists i :: 0 <= i < |recs| && Kept(recs[i], os) && BuildName(recs[i]) == k
  {
    BuildsKeysAmong(urls, os, recs, |recs|, k);
    assert recs[..|recs|] == recs;
  }

  /** A later record with the same name overwrites an earlier one: the value under a
      name is the build of the last kept record with that name. */
  lemma {:induction false} BuildsLastWins(urls: Urls, os: string, recs: seq<BuildRecord>, i: nat)
    requires i < |recs| && Kept(recs[i], os)
    requires forall j :: i < j < |recs| && Kept(recs[j], os) ==> BuildName(recs[j]) != BuildName(recs[i])
    ensures BuildName(recs[i]) in BuildsOf(urls, os, recs).vals
    ensures BuildsOf(urls, os, recs).vals[BuildName(recs[i])] == BuildOf(urls, recs[i])
    decreases |recs|
  {
    var front := recs[..|recs| - 1];
    var last := recs[|recs| - 1];
    assert recs == front + [last];
    AddBuildsAppend(urls, os, front, last, Empty());
    if i < |front| {
      assert front[i] == recs[i];
      forall j | i < j < |front| && Kept(front[j], os)
        ensures BuildName(front[j]) != BuildName(front[i])
      {
        assert front[j] == recs[j];
      }
      BuildsLastWins(urls, os, front, i);
    }
  }

  /** A template whose placeholder first occurs right after `pre` gets exactly that
      placeholder replaced. */
  lemma FillTemplate(pre: string, p: string, post: string, rep: string)
    requires p != "" && p[0] !in pre
    ensures ReplaceFirst(pre + p + post, p, rep) == pre + rep + post
  {
    var s := pre + p + post;
    forall j: nat | j < |pre| ensures !OccursAt(s, p, j) {
      assert s[j] == pre[j];
      if j + |p| <= |s| {
        assert s[j..j + |p|][0] == s[j];
      }
    }
    ReplaceFirstAt(pre, p, post, rep);
  }

  const BuildsHost := "http://builds.appcelerator.com/mobile/"

  /** With the default template, a branch gets its build index from
      `.../mobile/<branch>/index.json`. */
  lemma DefaultIndexUrl(branch: string)
    ensures IndexUrl(DefaultUrls, branch) == BuildsHost + branch + "/index.json"
  {
    FillTemplate(BuildsHost, "<BRANCH>", "/index.json", branch);
  }

  /** Both placeholders of a `<host><BRANCH>/<FILENAME>` template are filled. */
  lemma FillBuildTemplate(host: string, branch: string, file: string)
    requires '<' !in host && '<' !in branch
    ensures ReplaceFirst(ReplaceFirst(host + "<BRANCH>" + "/<FILENAME>", "<BRANCH>", branch), "<FILENAME>", file) ==
            host + branch + "/" + file
  {
    FillTemplate(host, "<BRANCH>", "/<FILENAME>", branch);
    var mid := host + branch + "/";
    assert host + branch + "/<FILENAME>" == mid + "<FILENAME>" + "";
    assert '<' !in mid by {
      assert forall i :: 0 <= i < |mid| ==> mid[i] in host || mid[i] in branch || mid[i] == '/';
    }
    FillTemplate(mid, "<FILENAME>", "", file);
  }

  /** With the default template, a build of a branch without `<` downloads from
      `.../mobile/<branch>/<filename>`. */
  lemma DefaultBuildUrl(rec: BuildRecord)
    requires '<' !in rec.gitBranch
    ensures BuildUrl(DefaultUrls, rec) == BuildsHost + rec.gitBranch + "/" + rec.filename
  {
    assert '<' !in BuildsHost;
    FillBuildTemplate(BuildsHost, rec.gitBranch, rec.filename);
  }

  /* ---------- getReleases ---------- */

  datatype ReleaseRecord = ReleaseRecord(os: string, name: string, buildType: string, url: string, version: string)

  datatype Release = Release(version: string, url: string)

  /** A release is listed when it is for this os, it is the `mobilesdk` product and,
      on linux only, its `64bit` marker agrees with the host architecture. */
  predicate ReleaseKept(rec: ReleaseRecord, os: string, is64: bool) {
    rec.os == os && rec.name == "mobilesdk" &&
    (os != "linux" || (is64 <==> Contains(rec.buildType, "64bit")))
  }

  /** `ver.replace(/\.GA.*$/, '')` */
  function ReleaseVersion(ver: string): (r: string)
    ensures StartsWith(ver, r)
  {
    StripTail(ver, ".GA")
  }

  function AddReleases(os: string, is64: bool, recs: seq<ReleaseRecord>, acc: Dict<Release>): (r: Dict<Release>)
    requires acc.Valid()
    ensures r.Valid()
    decreases |recs|
  {
    if recs == [] then acc
    else
      var rec := recs[0];
      var acc' := if ReleaseKept(rec, os, is64)
                  then acc.Put(rec.version, Release(ReleaseVersion(rec.version), rec.url))
                  else acc;
      AddReleases(os, is64, recs[1..], acc')
  }

  lemma {:induction false} AddReleasesAppend(os: string, is64: bool, recs: seq<ReleaseRecord>,
                                             rec: ReleaseRecord, acc: Dict<Release>)
    requires acc.Valid()
    ensures AddReleases(os, is64, recs + [rec], acc) ==
            var d := AddReleases(os, is64, recs, acc);
            if ReleaseKept(rec, os, is64) then d.Put(rec.version, Release(ReleaseVersion(rec.version), rec.url)) else d
    decreases |recs|
  {
    if recs == [] {
      assert [rec][1..] == [];
    } else {
      assert (recs + [rec])[1..] == recs[1..] + [rec];
      var r0 := recs[0];
      var acc' := if ReleaseKept(r0, os, is64) then acc.Put(r0.version, Release(ReleaseVersion(r0.version), r0.url)) else acc;
      AddReleasesAppend(os, is64, recs[1..], rec, acc');
    }
  }

  /** `Object.keys(results).sort(version.rcompare)[0]`. Sorting two or more keys
      compares every one of them, so it throws as soon as one key is not a valid
      version; a single key is never compared. */
  function Latest(keys: seq<string>): (r: Result<Option<string>>)
    ensures r.Err? <==> |keys| >= 2 && exists k :: k in keys && !Version.Valid(k)
    ensures r.Ok? ==> (r.value.None? <==> keys == [])
    ensures r.Ok? && r.value.Some? ==> r.value.value in keys
  {
    if |keys| >= 2 && exists k :: k in keys && !Version.Valid(k) then Err(InvalidVersion)
    else if keys == [] then Ok(None)
    else
      var sorted := Sorting.Sort(keys, Version.VersionBefore);
      assert sorted[0] in multiset(sorted);
      Ok(Some(sorted[0]))
  }

  /** The latest key is one of the keys, and no key is a higher version. */
  lemma LatestIsHighest(keys: seq<string>)
    requires Latest(keys).Ok? && Latest(keys).value.Some?
    ensures var l := Latest(keys).value.value;
            l in keys && forall k :: k in keys ==> Version.RCompare(l, k) != Ok(1)
  {
    var sorted := Sorting.Sort(keys, Version.VersionBefore);
    var l := sorted[0];
    assert l in multiset(sorted);
    Version.VersionOrder();
    Sorting.SortSorted(keys, Version.VersionBefore);
    forall k | k in keys ensures Version.RCompare(l, k) != Ok(1) {
      assert k in multiset(keys);
      Sorting.SortedHeadFirst(sorted, Version.VersionBefore, k);
      Version.RCompareMeaning(l, k);
      if Version.Valid(l) && Version.Valid(k) {
        Version.VersionBeforeIsRCompare(l, k);
      }
    }
  }

  /** The listing `getReleases(noLatest)` returns for the fetched records. */
  function ReleasesOf(os: string, is64: bool, noLatest: bool, recs: seq<ReleaseRecord>): Result<Dict<Release>> {
    var d := AddReleases(os, is64, recs, Empty());
    if noLatest then Ok(d) else WithLatest(d)
  }

  /** The `latest` step: the entry of the first key in `rcompare` order, under
      `latest`, when that key is not empty. */
  function WithLatest(d: Dict<Release>): Result<Dict<Release>>
    requires d.Valid()
  {
    var latest :- Latest(d.keys);
    if latest.Some? && latest.value != "" then Ok(d.Put("latest", d.vals[latest.value]))
    else Ok(d)
  }

  /** Sorting the keys fails exactly when there are two or more and one is not a
      valid version; without keys nothing is added. */
  lemma WithLatestErrors(d: Dict<Release>)
    requires d.Valid()
    ensures WithLatest(d).Err? <==> |d.keys| >= 2 && exists k :: k in d.keys && !Version.Valid(k)
    ensures d.keys == [] ==> WithLatest(d) == Ok(d)
  {
  }

  /** With keys and none of them empty, `latest` holds the entry of a key that no
      other key exceeds. */
  lemma WithLatestEntry(d: Dict<Release>)
    requires d.Valid() && d.keys != [] && "" !in d.vals
    ensures var r := WithLatest(d);
            r.Ok? ==> "latest" in r.value.vals &&
                      exists l :: l in d.vals && r.value.vals["latest"] == d.vals[l] &&
                                  forall k :: k in d.keys ==> Version.RCompare(l, k) != Ok(1)
  {
    var lt := Latest(d.keys);
    if lt.Ok? {
      var l := lt.value.value;
      LatestIsHighest(d.keys);
      var e := d.vals[l];
      assert WithLatest(d) == Ok(d.Put("latest", e));
    }
  }

  /** `getReleases(noLatest)`. `records` is the fetched release list; `is64` says
      whether the host is x64. */
  method GetReleases(os: string, is64: bool, noLatest: bool, records: seq<ReleaseRecord>)
    returns (r: Result<Dict<Release>>)
    ensures r == ReleasesOf(os, is64, noLatest, records)
  {
    var results := CollectReleases(os, is64, records);
    if !noLatest {
      var latest :- Latest(results.keys);
      if latest.Some? && latest.value != "" {
        results := results.Put("latest", results.vals[latest.value]);
      }
    }
    return Ok(results);
  }

  /** The loop of `getReleases` over the fetched records. */
  method CollectReleases(os: string, is64: bool, records: seq<ReleaseRecord>)
    returns (results: Dict<Release>)
    ensures results.Valid() && results == AddReleases(os, is64, records, Empty())
  {
    results := Empty<Release>();
    var i := 0;
    while i < |records|
      invariant 0 <= i <= |records|
      invariant results.Valid()
      invariant results == AddReleases(os, is64, records[..i], Empty())
    {
      var rec := records[i];
      AddReleasesAppend(os, is64, records[..i], rec, Empty());
      assert records[..i + 1] == records[..i] + [rec];
      var is64build := Contains(rec.buildType, "64bit");
      if rec.os == os && rec.name == "mobilesdk" {
        if os != "linux" || (is64 && is64build) || (!is64 && !is64build) {
          results := results.Put(rec.version, Release(ReleaseVersion(rec.version), rec.url));
        }
      }
      i := i + 1;
    }
    assert records[..|records|] == records;
  }

  /** One more record of the loop: the release it adds, if it is kept. */
  lemma ReleasesNext(os: string, is64: bool, recs: seq<ReleaseRecord>, i: nat)
    requires i < |recs|
    ensures var d := AddReleases(os, is64, recs[..i], Empty());
            AddReleases(os, is64, recs[..i + 1], Empty()) ==
              if ReleaseKept(recs[i], os, is64)
              then d.Put(recs[i].version, Release(ReleaseVersion(recs[i].version), recs[i].url)) else d
  {
    assert recs[..i + 1] == recs[..i] + [recs[i]];
    AddReleasesAppend(os, is64, recs[..i], recs[i], Empty());
  }

  /** Some record among the first `n` is kept and has version key `k`. */
  predicate ReleasedAmong(os: string, is64: bool, recs: seq<ReleaseRecord>, n: nat, k: string)
    requires n <= |recs|
  {
    exists i :: 0 <= i < n && ReleaseKept(recs[i], os, is64) && recs[i].version == k
  }

  lemma ReleasedAmongNext(os: string, is64: bool, recs: seq<ReleaseRecord>, n: nat, k: string)
    requires n < |recs|
    ensures ReleasedAmong(os, is64, recs, n + 1, k) <==>
            ReleasedAmong(os, is64, recs, n, k) || (ReleaseKept(recs[n], os, is64) && recs[n].version == k)
  {
  }

  lemma {:induction false} ReleasesKeysAmong(os: string, is64: bool, recs: seq<ReleaseRecord>, n: nat, k: string)
    requires n <= |recs|
    ensures k in AddReleases(os, is64, recs[..n], Empty()).vals <==> ReleasedAmong(os, is64, recs, n, k)
  {
    if n > 0 {
      ReleasesKeysAmong(os, is64, recs, n - 1, k);
      ReleasesNext(os, is64, recs, n - 1);
      ReleasedAmongNext(os, is64, recs, n - 1, k);
    }
  }

  /** A version key is listed exactly when some kept record carries it. */
  lemma ReleasesKeys(os: string, is64: bool, recs: seq<ReleaseRecord>, k: string)
    ensures k in AddReleases(os, is64, recs, Empty()).vals <==>
            exists i :: 0 <= i < |recs| && ReleaseKept(recs[i], os, is64) && recs[i].version == k
  {
    ReleasesKeysAmong(os, is64, recs, |recs|, k);
    assert recs[..|recs|] == recs;
  }

  /** The entry under a version key comes from the last kept record with that key:
      its url, and the key without its `.GA` tail. */
  lemma {:induction false} ReleasesLastWins(os: string, is64: bool, recs: seq<ReleaseRecord>, n: nat, i: nat)
    requires i < n <= |recs| && ReleaseKept(recs[i], os, is64)
    requires forall j :: i < j < n && ReleaseKept(recs[j], os, is64) ==> recs[j].version != recs[i].version
    ensures var d := AddReleases(os, is64, recs[..n], Empty());
            recs[i].version in d.vals &&
            d.vals[recs[i].version] == Release(ReleaseVersion(recs[i].version), recs[i].url)
  {
    ReleasesNext(os, is64, recs, n - 1);
    if i < n - 1 {
      ReleasesLastWins(os, is64, recs, n - 1, i);
    }
  }

  /** A key without `.GA` followed by a one-line tail is the listed version. */
  lemma ReleaseVersionOf(v: string, rest: string)
    requires !Contains(v, ".GA") && NoLineTerminator(rest)
    ensures ReleaseVersion(v + ".GA" + rest) == v
  {
    var s := v + ".GA" + rest;
    forall j: nat | j < |v| ensures !OccursAt(s, ".GA", j) {
      if j + 3 <= |v| {
        assert s[j..j + 3] == v[j..j + 3];
        assert OccursAt(v, ".GA", j) ==> Contains(v, ".GA");
      } else if j + 1 == |v| {
        assert s[j + 1] == '.';
      } else {
        assert s[j + 2] == '.';
      }
    }
    StripTailAt(v, ".GA", rest);
  }

  /** Unless `noLatest`, sorting the keys fails exactly when there are two or more
      and one is not a valid version; otherwise, when there are keys and none is
      empty, the `latest` entry is the entry of a key that no other key exceeds.
      With `noLatest`, and when there are no keys, the listing is the loop's result. */
  lemma ReleasesLatest(os: string, is64: bool, recs: seq<ReleaseRecord>)
    ensures ReleasesOf(os, is64, true, recs) == Ok(AddReleases(os, is64, recs, Empty()))
    ensures var d := AddReleases(os, is64, recs, Empty());
            var r := ReleasesOf(os, is64, false, recs);
            (r.Err? <==> |d.keys| >= 2 && exists k :: k in d.keys && !Version.Valid(k)) &&
            (d.keys == [] ==> r == Ok(d)) &&
            (r.Ok? && d.keys != [] && "" !in d.vals ==>
               "latest" in r.value.vals &&
               exists l :: l in d.vals && r.value.vals["latest"] == d.vals[l] &&
                           forall k :: k in d.keys ==> Version.RCompare(l, k) != Ok(1))
  {
    var d := AddReleases(os, is64, recs, Empty());
    WithLatestErrors(d);
    if d.keys != [] && "" !in d.vals {
      WithLatestEntry(d);
    }
  }
}
