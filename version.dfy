/** The `version` helpers: `format` pads or truncates a dotted version to a
    number of components, and `eq`, `lt` and `rcompare` compare two versions after
    normalising both to exactly three components. The semver comparison behind
    `eq` and `lt` is modelled for plain MAJOR.MINOR.PATCH versions: each component
    a decimal numeral without a leading zero; anything else is rejected the way
    the semver library rejects it, with a TypeError. */
module Version {
  import opened Base
  import opened Text
  import Sorting

  function Zeros(n: nat): (r: seq<string>)
    ensures |r| == n && forall i :: 0 <= i < n ==> r[i] == "0"
  {
    seq(n, _ => "0")
  }

  /** The string `format` splits: a falsy input becomes "0", and with `chopDash`
      everything from the first dash is removed. */
  function Prepared(ver: string, chopDash: bool): string {
    var v := if ver == "" then "0" else ver;
    if chopDash then StripTail(v, "-") else v
  }

  /** The components `format` joins. */
  function FormatParts(ver: string, min: Option<nat>, max: Option<nat>, chopDash: bool): seq<string> {
    var parts := Split(Prepared(ver, chopDash), '.');
    var padded := if min.Some? && |parts| < min.value then parts + Zeros(min.value - |parts|) else parts;
    if max.Some? && max.value < |padded| then padded[..max.value] else padded
  }

  function FormatSpec(ver: string, min: Option<nat>, max: Option<nat>, chopDash: bool): string {
    Join(FormatParts(ver, min, max, chopDash), '.')
  }

  lemma FormatPartsOf(ver: string, min: Option<nat>, max: Option<nat>, chopDash: bool,
                      split: seq<string>, padded: seq<string>, parts: seq<string>)
    requires split == Split(Prepared(ver, chopDash), '.')
    requires padded == if min.Some? && |split| < min.value then split + Zeros(min.value - |split|) else split
    requires parts == if max.Some? && max.value < |padded| then padded[..max.value] else padded
    ensures parts == FormatParts(ver, min, max, chopDash)
  {
  }

  /** `version.format(ver, min, max, chopDash)`: pushes "0" components in a loop
      until there are `min` of them, then keeps the first `max`. */
  method Format(ver: string, min: Option<nat>, max: Option<nat>, chopDash: bool) returns (r: string)
    ensures r == FormatSpec(ver, min, max, chopDash)
  {
    var v := if ver == "" then "0" else ver;
    if chopDash {
      v := StripTail(v, "-");
    }
    assert v == Prepared(ver, chopDash);
    var parts := Split(v, '.');
    ghost var split := parts;
    if min.Some? {
      while |parts| < min.value
        invariant |split| <= |parts|
        invariant parts == split + Zeros(|parts| - |split|)
        invariant |split| < min.value ==> |parts| <= min.value
        invariant |split| >= min.value ==> parts == split
        decreases min.value - |parts|
      {
        parts := parts + ["0"];
      }
    }
    assert parts == if min.Some? && |split| < min.value then split + Zeros(min.value - |split|) else split;
    ghost var padded := parts;
    if max.Some? && max.value < |parts| {
      parts := parts[..max.value];
    }
    FormatPartsOf(ver, min, max, chopDash, split, padded, parts);
    r := Join(parts, '.');
  }

  /** The number of components `format` produces, and each of them: the input's
      own component where there is one, "0" after it. */
  lemma FormatPadsAndTruncates(ver: string, min: Option<nat>, max: Option<nat>, chopDash: bool)
    ensures var parts := Split(Prepared(ver, chopDash), '.');
            var n := if min.Some? && |parts| < min.value then min.value else |parts|;
            var count := if max.Some? && max.value < n then max.value else n;
            var r := FormatParts(ver, min, max, chopDash);
            |r| == count &&
            forall i :: 0 <= i < count ==> r[i] == (if i < |parts| then parts[i] else "0")
  {
  }

  /** The first three components, padded with "0". */
  function Three(parts: seq<string>): seq<string>
    requires parts != []
  {
    [parts[0], if 1 < |parts| then parts[1] else "0", if 2 < |parts| then parts[2] else "0"]
  }

  /** `format(v, 3, 3)` splits into exactly three components: the first three of
      the input, padded with "0". */
  lemma {:induction false} FormatThree(ver: string)
    ensures Split(FormatSpec(ver, Some(3), Some(3), false), '.') == Three(Split(Prepared(ver, false), '.'))
  {
    var parts := Split(Prepared(ver, false), '.');
    var r := FormatParts(ver, Some(3), Some(3), false);
    FormatPadsAndTruncates(ver, Some(3), Some(3), false);
    SplitPieces(Prepared(ver, false), '.');
    assert forall i :: 0 <= i < |r| ==> '.' !in r[i];
    SplitJoin(r, '.');
  }

  /** Versions whose first three components agree compare alike. */
  lemma SameCore(v: string, w: string)
    requires Three(Split(Prepared(v, false), '.')) == Three(Split(Prepared(w, false), '.'))
    ensures CoreOf(v) == CoreOf(w)
  {
    FormatThree(v);
    FormatThree(w);
  }

  /** A semver numeric identifier: `0` or digits without a leading zero. */
  predicate IsNumeral(s: string) {
    s != "" && AllDigits(s) && (s == "0" || s[0] != '0')
  }

  function DigitsValue(s: string): nat
    requires AllDigits(s)
  {
    if s == [] then 0
    else DigitsValue(s[..|s| - 1]) * 10 + (s[|s| - 1] as int - '0' as int)
  }

  datatype Triple = Triple(major: nat, minor: nat, patch: nat)

  /** The three numbers semver reads from the string, if it is a valid version. */
  function ParseTriple(s: string): Option<Triple> {
    var p := Split(s, '.');
    if |p| == 3 && IsNumeral(p[0]) && IsNumeral(p[1]) && IsNumeral(p[2])
    then Some(Triple(DigitsValue(p[0]), DigitsValue(p[1]), DigitsValue(p[2])))
    else None
  }

  /** What the comparison sees of a version: `format(v, 3, 3)`, parsed. */
  function CoreOf(v: string): Option<Triple> {
    ParseTriple(FormatSpec(v, Some(3), Some(3), false))
  }

  predicate TripleLess(a: Triple, b: Triple) {
    a.major < b.major ||
    (a.major == b.major && (a.minor < b.minor || (a.minor == b.minor && a.patch < b.patch)))
  }

  /** `version.eq(v1, v2)` */
  function Eq(v1: string, v2: string): Result<bool> {
    match (CoreOf(v1), CoreOf(v2))
    case (Some(a), Some(b)) => Ok(a == b)
    case _ => Err(InvalidVersion)
  }

  /** `version.lt(v1, v2)` */
  function Lt(v1: string, v2: string): Result<bool> {
    match (CoreOf(v1), CoreOf(v2))
    case (Some(a), Some(b)) => Ok(TripleLess(a, b))
    case _ => Err(InvalidVersion)
  }

  /** `version.rcompare(v1, v2)`: 0 when equal, 1 when `v1` is lower, -1 otherwise. */
  function RCompare(v1: string, v2: string): Result<int> {
    var e :- Eq(v1, v2);
    if e then Ok(0)
    else
      var l :- Lt(v1, v2);
      if l then Ok(1) else Ok(-1)
  }

  predicate Valid(v: string) {
    CoreOf(v).Some?
  }

  /** `rcompare` fails exactly when a side is not a valid version, and otherwise
      gives 0, 1 or -1 exactly when the first version is equal to, lower than or
      higher than the second. */
  lemma RCompareMeaning(v1: string, v2: string)
    ensures RCompare(v1, v2).Err? <==> !Valid(v1) || !Valid(v2)
    ensures Valid(v1) && Valid(v2) ==>
      (RCompare(v1, v2) == Ok(0) <==> CoreOf(v1) == CoreOf(v2)) &&
      (RCompare(v1, v2) == Ok(1) <==> TripleLess(CoreOf(v1).value, CoreOf(v2).value)) &&
      (RCompare(v1, v2) == Ok(-1) <==> TripleLess(CoreOf(v2).value, CoreOf(v1).value))
  {
    if Valid(v1) && Valid(v2) {
      var a, b := CoreOf(v1).value, CoreOf(v2).value;
      TripleTrichotomy(a, b);
    }
  }

  lemma TripleTrichotomy(a: Triple, b: Triple)
    ensures TripleLess(a, b) || a == b || TripleLess(b, a)
    ensures !(TripleLess(a, b) && TripleLess(b, a))
    ensures !TripleLess(a, a)
  {
  }

  /** `rcompare` is antisymmetric, and a valid version compares equal to itself. */
  lemma RCompareAntisymmetric(v1: string, v2: string)
    ensures RCompare(v1, v2).Ok? ==> RCompare(v2, v1) == Ok(-RCompare(v1, v2).value)
    ensures Valid(v1) ==> RCompare(v1, v1) == Ok(0)
  {
    RCompareMeaning(v1, v2);
    RCompareMeaning(v2, v1);
    if Valid(v1) && Valid(v2) {
      TripleTrichotomy(CoreOf(v1).value, CoreOf(v2).value);
    }
  }

  /** A missing component counts as zero: appending ".0" to a version of fewer than
      three components does not change what it compares as (so `7.5` equals `7.5.0`). */
  lemma MissingComponentIsZero(v: string)
    requires v != "" && |Split(v, '.')| < 3
    ensures CoreOf(v + ".0") == CoreOf(v)
    ensures Valid(v) ==> Eq(v, v + ".0") == Ok(true)
  {
    var parts := Split(v, '.');
    assert v + ".0" == v + ['.'] + "0";
    SplitAppend(v, '.', "0");
    assert Split("0", '.') == ["0"];
    assert Prepared(v, false) == v;
    assert Prepared(v + ".0", false) == v + ".0";
    assert Three(parts + ["0"]) == Three(parts);
    SameCore(v + ".0", v);
  }

  /** Components after the third do not take part in the comparison. */
  lemma ExtraComponentIgnored(v: string, extra: string)
    requires |Split(v, '.')| >= 3
    ensures CoreOf(v + "." + extra) == CoreOf(v)
  {
    assert v != "";
    var parts := Split(v, '.');
    assert v + "." + extra == v + ['.'] + extra;
    SplitAppend(v, '.', extra);
    assert Prepared(v, false) == v;
    assert Prepared(v + "." + extra, false) == v + "." + extra;
    assert Three(parts + Split(extra, '.')) == Three(parts);
    SameCore(v + "." + extra, v);
  }

  /** The order `sort(rcompare)` produces: `a` may stay before `b` when `a` is not
      the lower version, so higher versions come first. */
  predicate VersionBefore(a: string, b: string) {
    !TripleLess(CoreOf(a).GetOr(Triple(0, 0, 0)), CoreOf(b).GetOr(Triple(0, 0, 0)))
  }

  /** On valid versions the order coincides with `rcompare(a, b) <= 0`. */
  lemma VersionBeforeIsRCompare(a: string, b: string)
    requires Valid(a) && Valid(b)
    ensures VersionBefore(a, b) <==> RCompare(a, b).value <= 0
  {
    RCompareMeaning(a, b);
    TripleTrichotomy(CoreOf(a).value, CoreOf(b).value);
  }

  /** The version order is total and transitive, so sorting by it is sorting
      "highest version first". */
  lemma VersionOrder()
    ensures Sorting.Total(VersionBefore) && Sorting.Transitive(VersionBefore)
  {
    forall a, b ensures VersionBefore(a, b) || VersionBefore(b, a) {
      TripleTrichotomy(CoreOf(a).GetOr(Triple(0, 0, 0)), CoreOf(b).GetOr(Triple(0, 0, 0)));
    }
  }
}
