/** Paths as sequences of components. `expandPath` returns absolute, normalised
    paths, for which `path.basename`, `path.dirname` and `path.join` act on the
    components. */
module Paths {
  import opened Text

  type Path = seq<string>

  /** Keeps the non-empty pieces. */
  function NonEmpty(pieces: seq<string>): (r: seq<string>)
    ensures forall i :: 0 <= i < |r| ==> r[i] != ""
  {
    if pieces == [] then []
    else if pieces[0] == "" then NonEmpty(pieces[1..])
    else [pieces[0]] + NonEmpty(pieces[1..])
  }

  /** The components of an absolute, normalised path string. */
  function Components(s: string): Path {
    NonEmpty(Split(s, '/'))
  }

  /** The path string of a component sequence, as `path.join` prints it. */
  function PathText(p: Path): string {
    "/" + Join(p, '/')
  }

  predicate IsPrefix(p: Path, q: Path) {
    |p| <= |q| && q[..|p|] == p
  }

  /** `path.basename` */
  function Basename(p: Path): string {
    if p == [] then "" else p[|p| - 1]
  }

  /** `path.dirname` */
  function Dirname(p: Path): Path {
    if p == [] then [] else p[..|p| - 1]
  }

  predicate ProperComponents(p: Path) {
    forall i :: 0 <= i < |p| ==> p[i] != "" && '/' !in p[i]
  }

  lemma {:induction false} NonEmptyKeeps(p: seq<string>)
    requires forall i :: 0 <= i < |p| ==> p[i] != ""
    ensures NonEmpty(p) == p
  {
    if p != [] {
      NonEmptyKeeps(p[1..]);
      assert p == [p[0]] + p[1..];
    }
  }

  /** Printing a path and reading its components back gives the path. */
  lemma ComponentsOfPathText(p: Path)
    requires ProperComponents(p)
    ensures Components(PathText(p)) == p
  {
    assert PathText(p) == "" + ['/'] + Join(p, '/');
    SplitAtFirst("", '/', Join(p, '/'));
    if p == [] {
      assert Split("", '/') == [""];
      assert NonEmpty([""]) == [];
      assert [""] + [""] == ["", ""];
    } else {
      SplitJoin(p, '/');
      NonEmptyKeeps(p);
      assert ([""] + p)[1..] == p;
    }
  }
}
