/** String operations with the semantics of the JavaScript built-ins the source
    uses: `\s` and `trim`, `split` on one character, `String.prototype.replace`
    with a pattern that has no flags, and code-unit ordering of strings. */
module Text {
  import opened Base

  /** The characters `.` does not match in a JavaScript regular expression. */
  predicate IsLineTerminator(c: char) {
    c == '\n' || c == '\r' || c == '\U{2028}' || c == '\U{2029}'
  }

  /** JavaScript white space and line terminators: the class `\s`, and what `trim` removes. */
  predicate IsSpace(c: char) {
    c == '\t' || c == '\n' || c == '\U{B}' || c == '\U{C}' || c == '\r' || c == ' ' ||
    c == '\U{A0}' || c == '\U{1680}' || ('\U{2000}' <= c <= '\U{200A}') ||
    c == '\U{2028}' || c == '\U{2029}' || c == '\U{202F}' || c == '\U{205F}' ||
    c == '\U{3000}' || c == '\U{FEFF}'
  }

  /** The class `\d`: ASCII digits only. */
  predicate IsDigit(c: char) {
    '0' <= c <= '9'
  }

  predicate AllDigits(s: string) {
    forall i :: 0 <= i < |s| ==> IsDigit(s[i])
  }

  predicate NoLineTerminator(s: string) {
    forall i :: 0 <= i < |s| ==> !IsLineTerminator(s[i])
  }

  predicate StartsWith(s: string, p: string) {
    |p| <= |s| && s[..|p|] == p
  }

  predicate EndsWith(s: string, p: string) {
    |p| <= |s| && s[|s| - |p|..] == p
  }

  predicate OccursAt(s: string, p: string, i: nat) {
    i + |p| <= |s| && s[i..i + |p|] == p
  }

  /** `s.includes(p)` */
  predicate Contains(s: string, p: string) {
    exists i: nat :: i <= |s| && OccursAt(s, p, i)
  }

  /** The first position at or after `from` where `p` occurs in `s`. */
  function FindFrom(s: string, p: string, from: nat): (r: Option<nat>)
    ensures r.Some? ==> from <= r.value && OccursAt(s, p, r.value)
    ensures r.Some? ==> forall j: nat :: from <= j < r.value ==> !OccursAt(s, p, j)
    ensures r.None? ==> forall j: nat :: from <= j ==> !OccursAt(s, p, j)
    decreases |s| - from
  {
    if from + |p| > |s| then None
    else if s[from..from + |p|] == p then Some(from)
    else FindFrom(s, p, from + 1)
  }

  /** `s.replace(/p/, rep)` for a pattern of plain characters: only the first
      occurrence is replaced. */
  function ReplaceFirst(s: string, p: string, rep: string): string {
    match FindFrom(s, p, 0)
    case None => s
    case Some(k) => s[..k] + rep + s[k + |p|..]
  }

  /** Substituting into a template: if `p` first occurs right after `pre`, exactly
      that occurrence is replaced and everything around it is kept. */
  lemma ReplaceFirstAt(pre: string, p: string, post: string, rep: string)
    requires forall j: nat :: j < |pre| ==> !OccursAt(pre + p + post, p, j)
    ensures ReplaceFirst(pre + p + post, p, rep) == pre + rep + post
  {
    var s := pre + p + post;
    assert s[|pre|..|pre| + |p|] == p;
    assert OccursAt(s, p, |pre|);
    var k := FindFrom(s, p, 0);
    assert k == Some(|pre|);
    assert s[..|pre|] == pre;
    assert s[|pre| + |p|..] == post;
  }

  /** A template without the placeholder is left as it is. */
  lemma ReplaceFirstAbsent(s: string, p: string, rep: string)
    requires !Contains(s, p)
    ensures ReplaceFirst(s, p, rep) == s
  {
  }

  /** The first position at or after `from` where `marker` occurs followed only by
      characters `.` matches up to the end of the input. */
  function FirstTailFrom(s: string, marker: string, from: nat): (r: Option<nat>)
    ensures r.Some? ==> from <= r.value && OccursAt(s, marker, r.value)
    ensures r.Some? ==> NoLineTerminator(s[r.value + |marker|..])
    ensures r.Some? ==> forall j: nat :: from <= j < r.value ==>
                          !(OccursAt(s, marker, j) && NoLineTerminator(s[j + |marker|..]))
    ensures r.None? ==> forall j: nat :: from <= j ==>
                          !(OccursAt(s, marker, j) && NoLineTerminator(s[j + |marker|..]))
    decreases |s| - from
  {
    if from + |marker| > |s| then None
    else if s[from..from + |marker|] == marker && NoLineTerminator(s[from + |marker|..]) then Some(from)
    else FirstTailFrom(s, marker, from + 1)
  }

  /** `s.replace(/<marker>.*$/, '')` (and `(<marker>.*)?$`): the leftmost `marker`
      from which `.*` reaches the end of the input starts the removed tail. */
  function StripTail(s: string, marker: string): (r: string)
    ensures StartsWith(s, r)
  {
    match FirstTailFrom(s, marker, 0)
    case None => s
    case Some(k) => s[..k]
  }

  /** The tail removed is the one starting at the first marker, when nothing before
      it starts a marker and nothing after it ends a line. */
  lemma StripTailAt(pre: string, marker: string, tail: string)
    requires forall j: nat :: j < |pre| ==> !OccursAt(pre + marker + tail, marker, j)
    requires NoLineTerminator(tail)
    ensures StripTail(pre + marker + tail, marker) == pre
  {
    var s := pre + marker + tail;
    assert s[|pre|..|pre| + |marker|] == marker;
    assert s[|pre| + |marker|..] == tail;
    assert OccursAt(s, marker, |pre|) && NoLineTerminator(s[|pre| + |marker|..]);
    var k := FirstTailFrom(s, marker, 0);
    assert k == Some(|pre|);
    assert s[..|pre|] == pre;
  }

  /** A string without the marker is left unchanged. */
  lemma StripTailAbsent(s: string, marker: string)
    requires !Contains(s, marker)
    ensures StripTail(s, marker) == s
  {
  }

  function TrimStart(s: string): (r: string)
    ensures |r| <= |s| && r == s[|s| - |r|..]
    ensures forall i :: 0 <= i < |s| - |r| ==> IsSpace(s[i])
    ensures r != [] ==> !IsSpace(r[0])
  {
    if s != [] && IsSpace(s[0]) then TrimStart(s[1..]) else s
  }

  function TrimEnd(s: string): (r: string)
    ensures |r| <= |s| && r == s[..|r|]
    ensures forall i :: |r| <= i < |s| ==> IsSpace(s[i])
    ensures r != [] ==> !IsSpace(r[|r| - 1])
  {
    if s != [] && IsSpace(s[|s| - 1]) then TrimEnd(s[..|s| - 1]) else s
  }

  /** `s.trim()` */
  function Trim(s: string): string {
    TrimEnd(TrimStart(s))
  }

  /** The first index of `c` in `s`. */
  function IndexOf(s: string, c: char): (r: Option<nat>)
    ensures r.Some? ==> r.value < |s| && s[r.value] == c && c !in s[..r.value]
    ensures r.None? ==> c !in s
  {
    if s == [] then None
    else if s[0] == c then Some(0)
    else match IndexOf(s[1..], c)
      case None => None
      case Some(k) => assert s[..k + 1] == [s[0]] + s[1..][..k]; Some(k + 1)
  }

  /** `s.split(c)` for a one-character separator. */
  function Split(s: string, c: char): (r: seq<string>)
    ensures |r| >= 1
    decreases |s|
  {
    match IndexOf(s, c)
    case None => [s]
    case Some(i) => [s[..i]] + Split(s[i + 1..], c)
  }

  /** `parts.join(c)` */
  function Join(parts: seq<string>, c: char): string {
    if parts == [] then ""
    else if |parts| == 1 then parts[0]
    else parts[0] + [c] + Join(parts[1..], c)
  }

  /** No piece of a split contains the separator. */
  lemma {:induction false} SplitPieces(s: string, c: char)
    ensures forall i :: 0 <= i < |Split(s, c)| ==> c !in Split(s, c)[i]
    decreases |s|
  {
    match IndexOf(s, c)
    case None =>
    case Some(k) => SplitPieces(s[k + 1..], c);
  }

  /** Joining a piece in front of a non-empty list puts the separator between. */
  lemma JoinCons(p: string, ps: seq<string>, c: char)
    requires ps != []
    ensures Join([p] + ps, c) == p + [c] + Join(ps, c)
  {
    assert ([p] + ps)[1..] == ps;
  }

  /** Splitting and joining on the same character gives the string back. */
  lemma {:induction false} JoinSplit(s: string, c: char)
    ensures Join(Split(s, c), c) == s
    decreases |s|
  {
    match IndexOf(s, c)
    case None =>
    case Some(k) =>
      var front, rest := s[..k], s[k + 1..];
      JoinSplit(rest, c);
      JoinCons(front, Split(rest, c), c);
      assert s == front + [c] + rest;
  }

  /** Splitting at a first separator: the piece before it, then the pieces after it. */
  lemma SplitAtFirst(a: string, c: char, b: string)
    requires c !in a
    ensures Split(a + [c] + b, c) == [a] + Split(b, c)
  {
    var s := a + [c] + b;
    assert s[|a|] == c;
    assert s[..|a|] == a && s[|a| + 1..] == b;
  }

  lemma Regroup(a0: string, c: char, a1: string, b: string)
    ensures a0 + [c] + a1 + [c] + b == a0 + [c] + (a1 + [c] + b)
  {
  }

  /** Splitting text at a separator splits it into the pieces of either side. */
  lemma {:induction false} SplitAppend(a: string, c: char, b: string)
    ensures Split(a + [c] + b, c) == Split(a, c) + Split(b, c)
    decreases |a|
  {
    match IndexOf(a, c)
    case None => SplitAtFirst(a, c, b);
    case Some(k) =>
      var a0, a1 := a[..k], a[k + 1..];
      assert a == a0 + [c] + a1;
      Regroup(a0, c, a1, b);
      SplitAtFirst(a0, c, a1 + [c] + b);
      SplitAtFirst(a0, c, a1);
      SplitAppend(a1, c, b);
  }

  /** Joining pieces that do not contain the separator and splitting again gives
      the pieces back. */
  lemma {:induction false} SplitJoin(parts: seq<string>, c: char)
    requires |parts| >= 1
    requires forall i :: 0 <= i < |parts| ==> c !in parts[i]
    ensures Split(Join(parts, c), c) == parts
  {
    if |parts| == 1 {
      assert IndexOf(parts[0], c) == None;
    } else {
      SplitJoin(parts[1..], c);
      SplitAtFirst(parts[0], c, Join(parts[1..], c));
      assert parts == [parts[0]] + parts[1..];
    }
  }

  /** Code-unit (lexicographic) order: the model of `localeCompare`. */
  predicate LexLess(a: string, b: string) {
    if a == [] then b != []
    else if b == [] then false
    else if a[0] != b[0] then a[0] < b[0]
    else LexLess(a[1..], b[1..])
  }

  /** `a.localeCompare(b)` as a sign. */
  function LocaleCompare(a: string, b: string): int {
    if LexLess(a, b) then -1 else if a == b then 0 else 1
  }

  lemma {:induction false} LexLessIrreflexive(a: string)
    ensures !LexLess(a, a)
  {
    if a != [] { LexLessIrreflexive(a[1..]); }
  }

  lemma {:induction false} LexTrichotomy(a: string, b: string)
    ensures LexLess(a, b) || a == b || LexLess(b, a)
    ensures !(LexLess(a, b) && LexLess(b, a))
  {
    if a != [] && b != [] && a[0] == b[0] {
      LexTrichotomy(a[1..], b[1..]);
      if a[1..] == b[1..] {
        assert a == [a[0]] + a[1..] && b == [b[0]] + b[1..];
      }
    }
  }

  lemma {:induction false} LexLessTransitive(a: string, b: string, c: string)
    requires LexLess(a, b) && LexLess(b, c)
    ensures LexLess(a, c)
  {
    if a != [] && b != [] && c != [] && a[0] == b[0] && b[0] == c[0] {
      LexLessTransitive(a[1..], b[1..], c[1..]);
    }
  }

  /** `localeCompare` is a consistent comparison: reversing the arguments reverses
      the sign, and only equal strings compare as 0. */
  lemma LocaleCompareAntisymmetric(a: string, b: string)
    ensures LocaleCompare(a, b) == -LocaleCompare(b, a)
    ensures LocaleCompare(a, b) == 0 <==> a == b
  {
    LexTrichotomy(a, b);
    LexLessIrreflexive(a);
  }
}
