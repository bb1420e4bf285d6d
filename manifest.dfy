/** The `manifest` file of a Titanium module: lines of `key: value`, read with
    the regular expression `^(?!\s*#)\s*([^:\s]+)\s*:\s*(.+?)\s*$` that both
    module readers share, applied line by line to a JavaScript object. */
module Manifest {
  import opened Base
  import opened Text
  import opened Dict
  import opened Paths

  /** One `key: value` pair of a manifest line. */
  datatype Entry = Entry(key: string, text: string)

  /** A manifest value: a string, or a number kept as its digit text. */
  datatype Value = Str(text: string) | Num(digits: string)

  /** A trailing carriage return is dropped. */
  function DropCr(s: string): string {
    if s != [] && s[|s| - 1] == '\r' then s[..|s| - 1] else s
  }

  /** `text.split(/\r?\n/)`: split at each line feed; a carriage return right
      before a line feed belongs to the separator. */
  function Lines(text: string): (r: seq<string>)
    ensures |r| == |Split(text, '\n')| >= 1
  {
    var pieces := Split(text, '\n');
    seq(|pieces|, i requires 0 <= i < |pieces| => if i < |pieces| - 1 then DropCr(pieces[i]) else pieces[i])
  }

  /** Each line but the last followed by a carriage return: lines joined with
      `\r\n` are these joined with `\n`. */
  function AddCr(ls: seq<string>): (r: seq<string>)
    ensures |r| == |ls|
  {
    seq(|ls|, i requires 0 <= i < |ls| => if i < |ls| - 1 then ls[i] + "\r" else ls[i])
  }

  lemma DropCrKeeps(s: string)
    requires !EndsWith(s, "\r")
    ensures DropCr(s) == s
  {
    assert s == [] || s[|s| - 1..] == [s[|s| - 1]];
  }

  /** Lines joined with `\n` are read back as they were. */
  lemma LinesOfJoin(ls: seq<string>)
    requires |ls| >= 1
    requires forall i :: 0 <= i < |ls| ==> '\n' !in ls[i]
    requires forall i :: 0 <= i < |ls| - 1 ==> !EndsWith(ls[i], "\r")
    ensures Lines(Join(ls, '\n')) == ls
  {
    var text := Join(ls, '\n');
    SplitJoin(ls, '\n');
    var r := Lines(text);
    forall i | 0 <= i < |ls| ensures r[i] == ls[i] {
      if i < |ls| - 1 {
        DropCrKeeps(ls[i]);
      }
    }
  }

  /** Lines joined with `\r\n` are read back as they were. */
  lemma LinesOfCrlfJoin(ls: seq<string>)
    requires |ls| >= 1
    requires forall i :: 0 <= i < |ls| ==> '\n' !in ls[i]
    ensures Lines(Join(AddCr(ls), '\n')) == ls
  {
    var cr := AddCr(ls);
    forall i | 0 <= i < |cr| ensures '\n' !in cr[i] {
      if i < |ls| - 1 {
        assert cr[i] == ls[i] + "\r";
      }
    }
    SplitJoin(cr, '\n');
    forall i | 0 <= i < |ls| - 1 ensures DropCr(cr[i]) == ls[i] {
      assert cr[i] == ls[i] + "\r";
    }
  }

  /** The class `[^:\s]`. */
  predicate IsKeyChar(c: char) {
    c != ':' && !IsSpace(c)
  }

  /** The longest run of key characters at the start of `s`. */
  function KeyRun(s: string): (k: string)
    ensures |k| <= |s| && k == s[..|k|]
    ensures forall i :: 0 <= i < |k| ==> IsKeyChar(k[i])
    ensures |k| < |s| ==> !IsKeyChar(s[|k|])
  {
    if s == [] || !IsKeyChar(s[0]) then [] else [s[0]] + KeyRun(s[1..])
  }

  /** The last character of `s` that `.` matches. */
  function LastPlain(s: string): (r: Option<char>)
    ensures r.Some? ==> !IsLineTerminator(r.value)
    ensures r.None? ==> forall i :: 0 <= i < |s| ==> IsLineTerminator(s[i])
  {
    if s == [] then None
    else if !IsLineTerminator(s[|s| - 1]) then Some(s[|s| - 1])
    else LastPlain(s[..|s| - 1])
  }

  /** `\s*(.+?)\s*$` on the text after the colon. The value is the text with its
      surrounding white space trimmed, and must not contain a line terminator.
      When that text is white space only, the greedy `\s*` backs off by one
      character that `.` can match, and that one character is the value. */
  function ValueOf(rest: string): (r: Option<string>)
    ensures r.Some? ==> r.value != [] && NoLineTerminator(r.value)
  {
    var v := Trim(rest);
    if v != [] then (if NoLineTerminator(v) then Some(v) else None)
    else match LastPlain(rest)
      case None => None
      case Some(c) => Some([c])
  }

  /** The part of `iniRegExp` after the key: `\s*:\s*(.+?)\s*$`. */
  function EntryAfter(key: string, tail: string): (r: Option<Entry>)
    ensures r.Some? ==> r.value.key == key && r.value.text != [] && NoLineTerminator(r.value.text)
  {
    var after := TrimStart(tail);
    if after == [] || after[0] != ':' then None
    else match ValueOf(after[1..])
      case None => None
      case Some(v) => Some(Entry(key, v))
  }

  /** `line.match(iniRegExp)`: the key and the value, or `None` for a line that
      does not match, such as a comment, a line without a colon or one without a
      key. */
  function ParseLine(line: string): (r: Option<Entry>)
    ensures r.Some? ==> r.value.key != [] && r.value.key[0] != '#'
    ensures r.Some? ==> forall i :: 0 <= i < |r.value.key| ==> IsKeyChar(r.value.key[i])
    ensures r.Some? ==> r.value.text != [] && NoLineTerminator(r.value.text)
  {
    var s := TrimStart(line);
    if s == [] || s[0] == '#' then None
    else
      var key := KeyRun(s);
      if key == [] then None else EntryAfter(key, s[|key|..])
  }

  predicate AllSpace(s: string) {
    forall i :: 0 <= i < |s| ==> IsSpace(s[i])
  }

  lemma {:induction false} TrimStartSpaces(ws: string, x: string)
    requires AllSpace(ws) && (x == [] || !IsSpace(x[0]))
    ensures TrimStart(ws + x) == x
    decreases |ws|
  {
    if ws != [] {
      assert (ws + x)[1..] == ws[1..] + x;
      TrimStartSpaces(ws[1..], x);
    }
  }

  lemma {:induction false} TrimEndSpaces(x: string, ws: string)
    requires AllSpace(ws) && (x == [] || !IsSpace(x[|x| - 1]))
    ensures TrimEnd(x + ws) == x
    decreases |ws|
  {
    if ws != [] {
      var ws' := ws[..|ws| - 1];
      assert (x + ws)[..|x + ws| - 1] == x + ws';
      TrimEndSpaces(x, ws');
    }
  }

  lemma {:induction false} KeyRunOf(key: string, y: string)
    requires forall i :: 0 <= i < |key| ==> IsKeyChar(key[i])
    requires y != [] && !IsKeyChar(y[0])
    ensures KeyRun(key + y) == key
    decreases |key|
  {
    if key != [] {
      assert (key + y)[1..] == key[1..] + y;
      KeyRunOf(key[1..], y);
    }
  }

  /** After blanks, a key and a character that ends it, the line is read from
      that character on. */
  lemma ParseLineSplit(ws: string, key: string, tail: string)
    requires AllSpace(ws)
    requires key != [] && key[0] != '#' && forall i :: 0 <= i < |key| ==> IsKeyChar(key[i])
    requires tail != [] && !IsKeyChar(tail[0])
    ensures ParseLine(ws + key + tail) == EntryAfter(key, tail)
  {
    assert ws + key + tail == ws + (key + tail);
    TrimStartSpaces(ws, key + tail);
    KeyRunOf(key, tail);
    assert (key + tail)[|key|..] == tail;
  }

  /** A value with blanks around it is read without them. */
  lemma ValueOfTrimmed(ws3: string, value: string, ws4: string)
    requires AllSpace(ws3) && AllSpace(ws4)
    requires value != [] && !IsSpace(value[0]) && !IsSpace(value[|value| - 1]) && NoLineTerminator(value)
    ensures ValueOf(ws3 + value + ws4) == Some(value)
  {
    assert ws3 + value + ws4 == ws3 + (value + ws4);
    TrimStartSpaces(ws3, value + ws4);
    TrimEndSpaces(value, ws4);
  }

  /** A line `key: value`, with any white space around the key, the colon and
      the value, yields exactly that key and value; the value may itself contain
      colons and inner spaces. */
  lemma ParseKeyValue(ws1: string, key: string, ws2: string, ws3: string, value: string, ws4: string)
    requires AllSpace(ws1) && AllSpace(ws2) && AllSpace(ws3) && AllSpace(ws4)
    requires key != [] && key[0] != '#' && forall i :: 0 <= i < |key| ==> IsKeyChar(key[i])
    requires value != [] && !IsSpace(value[0]) && !IsSpace(value[|value| - 1]) && NoLineTerminator(value)
    ensures ParseLine(ws1 + key + ws2 + ":" + ws3 + value + ws4) == Some(Entry(key, value))
  {
    var after := ":" + (ws3 + value + ws4);
    var tail := ws2 + after;
    assert ws1 + key + ws2 + ":" + ws3 + value + ws4 == ws1 + key + tail;
    assert tail[0] == ':' || IsSpace(tail[0]);
    ParseLineSplit(ws1, key, tail);
    TrimStartSpaces(ws2, after);
    assert after[1..] == ws3 + value + ws4;
    ValueOfTrimmed(ws3, value, ws4);
  }

  /** A line whose first non-blank character is `#` is a comment. */
  lemma CommentSkipped(ws: string, rest: string)
    requires AllSpace(ws)
    ensures ParseLine(ws + "#" + rest) == None
  {
    assert ws + "#" + rest == ws + ("#" + rest);
    TrimStartSpaces(ws, "#" + rest);
  }

  /** A line without a colon holds no pair. */
  lemma NoColonNoEntry(line: string)
    requires ':' !in line
    ensures ParseLine(line) == None
  {
    var s := TrimStart(line);
    if s != [] && s[0] != '#' {
      var key := KeyRun(s);
      var after := TrimStart(s[|key|..]);
      if after != [] {
        assert after[0] in s[|key|..];
      }
    }
  }

  /** When only white space follows the colon, the value is its last character
      that is not a line terminator, not the empty string. */
  lemma BlankValue(key: string, ws: string)
    requires key != [] && key[0] != '#' && forall i :: 0 <= i < |key| ==> IsKeyChar(key[i])
    requires ws != [] && AllSpace(ws) && !IsLineTerminator(ws[|ws| - 1])
    ensures ParseLine(key + ":" + ws) == Some(Entry(key, [ws[|ws| - 1]]))
  {
    var tail := ":" + ws;
    assert key + ":" + ws == "" + key + tail;
    ParseLineSplit("", key, tail);
    TrimStartSpaces("", tail);
    assert "" + tail == tail && tail[1..] == ws;
    TrimStartSpaces(ws, "");
    assert ws + "" == ws;
  }

  /** `numberRegExp`, `^\d+(\.\d*)?$`: digits, then optionally a point and more
      digits. */
  predicate IsNumberText(v: string) {
    match IndexOf(v, '.')
    case None => v != "" && AllDigits(v)
    case Some(i) => i > 0 && AllDigits(v[..i]) && AllDigits(v[i + 1..])
  }

  /** A point splits a number into its integer digits and fraction digits. */
  lemma NumberTextParts(a: string, b: string)
    requires '.' !in a
    ensures IsNumberText(a + "." + b) <==> a != "" && AllDigits(a) && AllDigits(b)
  {
    var v := a + "." + b;
    assert v[|a|] == '.' && v[..|a|] == a && v[|a| + 1..] == b;
    assert IndexOf(v, '.') == Some(|a|) by {
      assert '.' !in v[..|a|];
    }
  }

  /** A version text such as `1.0.0` is not a number. */
  lemma DottedVersionNotNumber(a: string, b: string, c: string)
    requires '.' !in a && '.' !in b
    ensures !IsNumberText(a + "." + b + "." + c)
  {
    NumberTextParts(a, b + "." + c);
    assert a + "." + b + "." + c == a + "." + (b + "." + c);
    assert (b + "." + c)[|b|] == '.';
  }

  /** The new reader's coercion: a number text is stored as a number except
      under the key `version`. */
  function Coerce(e: Entry): Value {
    if IsNumberText(e.text) && e.key != "version" then Num(e.text) else Str(e.text)
  }

  /** The legacy reader stores every value as a string. */
  function AsText(e: Entry): string {
    e.text
  }

  /** A path-derived field of the new reader. */
  function StrOf(s: string): Value {
    Str(s)
  }

  /** A path-derived field of the legacy reader. */
  function TextOf(s: string): string {
    s
  }

  /** The manifest text a value of the new reader came from. */
  function ValueText(v: Value): string {
    match v
    case Str(t) => t
    case Num(digits) => digits
  }

  /** A dictionary of the new reader and one of the legacy reader hold the same
      keys in the same order (and so, when both are valid, the same keys), with
      the same texts. */
  predicate Agree(d: Dict<Value>, legacy: Dict<string>) {
    d.keys == legacy.keys && forall k :: k in d.vals && k in legacy.vals ==> ValueText(d.vals[k]) == legacy.vals[k]
  }

  /** What each line of `lines` matched. */
  function Parsed(lines: seq<string>): (r: seq<Option<Entry>>)
    ensures |r| == |lines|
    decreases |lines|
  {
    if lines == [] then [] else Parsed(lines[..|lines| - 1]) + [ParseLine(lines[|lines| - 1])]
  }

  lemma ParsedSnoc(lines: seq<string>, line: string)
    ensures Parsed(lines + [line]) == Parsed(lines) + [ParseLine(line)]
  {
    assert (lines + [line])[..|lines|] == lines;
  }

  /** Entry `i` is what line `i` matched. */
  lemma {:induction false} ParsedAt(lines: seq<string>, i: nat)
    requires i < |lines|
    ensures Parsed(lines)[i] == ParseLine(lines[i])
    decreases |lines|
  {
    if i < |lines| - 1 {
      ParsedAt(lines[..|lines| - 1], i);
    }
  }

  /** The loop over the manifest lines: each matching line assigns `this[key]`. */
  function Apply<V>(d: Dict<V>, es: seq<Option<Entry>>, val: Entry -> V): (r: Dict<V>)
    requires d.Valid()
    ensures r.Valid()
    decreases |es|
  {
    if es == [] then d
    else
      var front := Apply(d, es[..|es| - 1], val);
      match es[|es| - 1]
      case None => front
      case Some(e) => front.Put(e.key, val(e))
  }

  lemma ApplySnoc<V>(d: Dict<V>, es: seq<Option<Entry>>, m: Option<Entry>, val: Entry -> V)
    requires d.Valid()
    ensures Apply(d, es + [m], val) == if m.Some? then Apply(d, es, val).Put(m.value.key, val(m.value))
                                       else Apply(d, es, val)
  {
    assert (es + [m])[..|es|] == es;
  }

  /** One more line of the loop: the assignment its match makes, if any. */
  lemma ApplyNextLine<V>(d: Dict<V>, lines: seq<string>, i: nat, val: Entry -> V)
    requires d.Valid() && i < |lines|
    ensures var m := ParseLine(lines[i]);
            var before := Apply(d, Parsed(lines[..i]), val);
            Apply(d, Parsed(lines[..i + 1]), val) == if m.Some? then before.Put(m.value.key, val(m.value)) else before
  {
    assert lines[..i + 1] == lines[..i] + [lines[i]];
    ParsedSnoc(lines[..i], lines[i]);
    ApplySnoc(d, Parsed(lines[..i]), ParseLine(lines[i]), val);
  }

  /** Line `i` makes the last assignment of key `k`. */
  predicate LastAssigns(es: seq<Option<Entry>>, i: nat, k: string) {
    i < |es| && es[i].Some? && es[i].value.key == k &&
    forall j :: i < j < |es| && es[j].Some? ==> es[j].value.key != k
  }

  /** The keys that the matched lines assign. */
  function AssignedKeys(es: seq<Option<Entry>>): set<string>
    decreases |es|
  {
    if es == [] then {}
    else
      var front := AssignedKeys(es[..|es| - 1]);
      match es[|es| - 1]
      case None => front
      case Some(e) => front + {e.key}
  }

  /** The key of every matching line is among the assigned keys. */
  lemma {:induction false} AssignedKeyOfLine(es: seq<Option<Entry>>, i: nat)
    requires i < |es| && es[i].Some?
    ensures es[i].value.key in AssignedKeys(es)
    decreases |es|
  {
    if i < |es| - 1 {
      var front := es[..|es| - 1];
      assert front[i] == es[i];
      AssignedKeyOfLine(front, i);
    }
  }

  /** Every assigned key comes from some matching line. */
  lemma {:induction false} AssignedKeyLine(es: seq<Option<Entry>>, k: string) returns (i: nat)
    requires k in AssignedKeys(es)
    ensures i < |es| && es[i].Some? && es[i].value.key == k
    decreases |es|
  {
    var front := es[..|es| - 1];
    if k in AssignedKeys(front) {
      i := AssignedKeyLine(front, k);
      assert front[i] == es[i];
    } else {
      i := |es| - 1;
    }
  }

  lemma PrefixOfPrefix(a: seq<string>, b: seq<string>, c: seq<string>)
    requires |a| <= |b| <= |c| && c[..|b|] == b && b[..|a|] == a
    ensures c[..|a|] == a
  {
    assert c[..|a|] == c[..|b|][..|a|];
  }

  /** The fields present before the loop keep their places in the key order,
      ahead of every key a line adds. */
  lemma {:induction false} ApplyKeepsOrder<V>(d: Dict<V>, es: seq<Option<Entry>>, val: Entry -> V)
    requires d.Valid()
    ensures |d.keys| <= |Apply(d, es, val).keys| && Apply(d, es, val).keys[..|d.keys|] == d.keys
    decreases |es|
  {
    if es != [] {
      var front := Apply(d, es[..|es| - 1], val);
      ApplyKeepsOrder(d, es[..|es| - 1], val);
      PrefixOfPrefix(d.keys, front.keys, Apply(d, es, val).keys);
    }
  }

  /** A key that no line assigns keeps whatever value it had, or stays absent. */
  lemma {:induction false} ApplyUndefined<V>(d: Dict<V>, es: seq<Option<Entry>>, val: Entry -> V, k: string)
    requires d.Valid() && k !in AssignedKeys(es)
    ensures k in Apply(d, es, val).vals <==> k in d.vals
    ensures k in d.vals ==> Apply(d, es, val).vals[k] == d.vals[k]
    decreases |es|
  {
    if es != [] {
      ApplyUndefined(d, es[..|es| - 1], val, k);
    }
  }

  /** The key of the last line that assigns it holds that line's value: later
      lines win over earlier ones and over the initial fields. */
  lemma {:induction false} ApplyLastWins<V>(d: Dict<V>, es: seq<Option<Entry>>, val: Entry -> V, i: nat)
    requires d.Valid() && i < |es| && es[i].Some?
    requires forall j :: i < j < |es| && es[j].Some? ==> es[j].value.key != es[i].value.key
    ensures es[i].value.key in Apply(d, es, val).vals
    ensures Apply(d, es, val).vals[es[i].value.key] == val(es[i].value)
    decreases |es|
  {
    if i < |es| - 1 {
      var front := es[..|es| - 1];
      assert front[i] == es[i];
      forall j | i < j < |front| && front[j].Some? ensures front[j].value.key != front[i].value.key {
        assert front[j] == es[j];
      }
      ApplyLastWins(d, front, val, i);
    }
  }

  /** The keys after the loop: the initial ones and those some line assigns. */
  lemma {:induction false} ApplyKeys<V>(d: Dict<V>, es: seq<Option<Entry>>, val: Entry -> V, k: string)
    requires d.Valid()
    ensures k in Apply(d, es, val).vals <==> k in d.vals || k in AssignedKeys(es)
    decreases |es|
  {
    if es != [] {
      ApplyKeys(d, es[..|es| - 1], val, k);
    }
  }

  /** `path.basename(path.dirname(path.dirname(dir)))`: the platform directory
      two levels above a module version directory. */
  function PlatformOf(dir: Path): string {
    Basename(Dirname(Dirname(dir)))
  }

  /** `platform` of `<root>/<platform>/<name>/<version>`. */
  lemma PlatformOfModuleDir(root: Path, platform: string, name: string, version: string)
    ensures PlatformOf(root + [platform, name, version]) == platform
    ensures Basename(root + [platform, name, version]) == version
  {
    var p := root + [platform, name, version];
    assert Dirname(p) == root + [platform, name];
    assert Dirname(Dirname(p)) == root + [platform];
  }

  /** The fields set from the directory before the manifest is read: `path`,
      `platform` and `version`, in that order. */
  function Derived<V>(dir: string, val: string -> V): (r: Dict<V>)
    ensures r.Valid() && r.keys == ["path", "platform", "version"]
  {
    var p := Components(dir);
    Dict(["path", "platform", "version"],
         map["path" := val(dir), "platform" := val(PlatformOf(p)), "version" := val(Basename(p))])
  }

  /** The two readers assign the same keys in the same order and differ only in
      whether a number-like text is kept as a number. */
  lemma {:induction false} ApplyAgree(d: Dict<Value>, legacy: Dict<string>, es: seq<Option<Entry>>)
    requires d.Valid() && legacy.Valid() && Agree(d, legacy)
    ensures Agree(Apply(d, es, Coerce), Apply(legacy, es, AsText))
    decreases |es|
  {
    if es != [] {
      var front := es[..|es| - 1];
      ApplyAgree(d, legacy, front);
      match es[|es| - 1]
      case None =>
      case Some(e) =>
        PutAgree(Apply(d, front, Coerce), Apply(legacy, front, AsText), e.key, Coerce(e), AsText(e));
    }
  }

  lemma PutAgree(d: Dict<Value>, legacy: Dict<string>, k: string, v: Value, t: string)
    requires d.Valid() && legacy.Valid() && Agree(d, legacy) && ValueText(v) == t
    ensures Agree(d.Put(k, v), legacy.Put(k, t))
  {
    var d2 := d.Put(k, v);
    var l2 := legacy.Put(k, t);
    assert k in d.vals <==> k in legacy.vals;
    forall k' | k' in d2.vals && k' in l2.vals
      ensures ValueText(d2.vals[k']) == l2.vals[k']
    {
      if k' != k {
        assert k' in d.vals && k' in legacy.vals;
      }
    }
  }

  /** The path-derived fields of the two readers agree. */
  lemma DerivedAgree(dir: string)
    ensures Agree(Derived(dir, StrOf), Derived(dir, TextOf))
  {
  }
}
