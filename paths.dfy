/** The slice of Node's `path` module that the transform calls: `join`
    (collection), `dirname` and `resolve` (the registry key). Paths are
    POSIX paths; the source root is absolute, so every directory the
    transform resolves against is absolute too, and a path is normalised by
    splitting it on `/` and folding away empty, `.` and `..` segments. */
module Paths {
  import opened Wrappers

  type Path = Text

  /** Splits `p` on `/`; the result always has at least one segment. */
  function Split(p: Text): (segs: seq<Text>)
    ensures |segs| >= 1
    ensures forall k | 0 <= k < |segs| :: '/' !in segs[k]
  {
    if p == [] then [[]]
    else
      var rest := Split(p[1..]);
      if p[0] == '/' then [[]] + rest
      else [[p[0]] + rest[0]] + rest[1..]
  }

  /** Joins non-empty segments with `/`. */
  function JoinSegments(segs: seq<Text>): Text
  {
    if segs == [] then []
    else if |segs| == 1 then segs[0]
    else segs[0] + "/" + JoinSegments(segs[1..])
  }

  /** A segment that survives normalisation. */
  predicate IsName(seg: Text)
  {
    '/' !in seg && seg != [] && seg != "." && seg != ".."
  }

  /** Any piece of a path between two slashes. */
  predicate IsSegment(seg: Text)
  {
    IsName(seg) || seg == [] || seg == "." || seg == ".."
  }

  /** Folds segments onto the stack of directory names already walked:
      empty and `.` segments vanish, `..` pops (and stays at the root). */
  function Fold(stack: seq<Text>, segs: seq<Text>): (r: seq<Text>)
    requires forall k | 0 <= k < |stack| :: IsName(stack[k])
    requires forall k | 0 <= k < |segs| :: IsSegment(segs[k])
    ensures forall k | 0 <= k < |r| :: IsName(r[k])
    decreases segs
  {
    if segs == [] then stack
    else if segs[0] == [] || segs[0] == "." then Fold(stack, segs[1..])
    else if segs[0] == ".." then
      Fold(if stack == [] then [] else stack[..|stack| - 1], segs[1..])
    else assert IsSegment(segs[0]); Fold(stack + [segs[0]], segs[1..])
  }

  /** The absolute, normalised form of `p` (read from the root). */
  function Normalise(p: Text): (r: Path)
  {
    "/" + JoinSegments(Fold([], Split(p)))
  }

  /** A canonical absolute path: `/` followed by names separated by `/`. */
  ghost predicate IsCanonical(p: Path)
  {
    exists names: seq<Text> | forall k | 0 <= k < |names| :: IsName(names[k]) ::
      p == "/" + JoinSegments(names)
  }

  /** `path.resolve(dir, rel)` for an absolute `dir`: an absolute `rel`
      replaces `dir`, a relative one is appended to it. */
  function Resolve(dir: Path, rel: Text): (r: Path)
  {
    if rel != [] && rel[0] == '/' then Normalise(rel) else Normalise(dir + "/" + rel)
  }

  /** `path.join(dir, name)` for a directory entry name. */
  function Join(dir: Path, name: Text): (r: Path)
  {
    Normalise(dir + "/" + name)
  }

  /** Index of the last `/` in `p`, if any. */
  function LastSlash(p: Text): (r: Option<nat>)
    ensures r.Some? ==> r.value < |p| && p[r.value] == '/' && '/' !in p[r.value + 1..]
    ensures r.None? ==> '/' !in p
  {
    if p == [] then None
    else if p[|p| - 1] == '/' then Some(|p| - 1)
    else LastSlash(p[..|p| - 1])
  }

  /** `path.dirname(p)` for a path without a trailing slash: everything
      before the last `/`, `/` when that slash is the first character, and
      `.` when there is none. */
  function Dirname(p: Path): (r: Path)
    ensures LastSlash(p).Some? && LastSlash(p).value > 0 ==>
              |r| < |p| && p[..|r|] == r && p[|r|] == '/' && '/' !in p[|r| + 1..]
  {
    match LastSlash(p)
    case None => "."
    case Some(i) => if i == 0 then "/" else p[..i]
  }

  /** The registry key of a worker reference: the literal path resolved
      against the directory of the file that holds it. Scan time and
      rewrite time both compute it through this one function. */
  function WorkerKey(owner: Path, literal: Text): Path
  {
    Resolve(Dirname(owner), literal)
  }

  /** `p.endsWith(suffix)`. */
  predicate EndsWith(p: Text, suffix: Text)
  {
    |suffix| <= |p| && p[|p| - |suffix|..] == suffix
  }

  // ---------------------------------------------------------------------
  // Canonical form: resolution always yields a canonical absolute path, and
  // normalising a canonical path gives it back.

  lemma {:induction false} SplitJoin(names: seq<Text>)
    requires forall k | 0 <= k < |names| :: IsName(names[k])
    ensures names != [] ==> Split(JoinSegments(names)) == names
    ensures names == [] ==> Split(JoinSegments(names)) == [[]]
  {
    if |names| <= 1 {
      if |names| == 1 {
        SplitName(names[0], []);
        assert names[0] + [] == names[0];
      }
    } else {
      SplitJoin(names[1..]);
      SplitName(names[0], "/" + JoinSegments(names[1..]));
      assert names[0] + "/" + JoinSegments(names[1..]) == names[0] + ("/" + JoinSegments(names[1..]));
      var tail := "/" + JoinSegments(names[1..]);
      assert tail[1..] == JoinSegments(names[1..]);
    }
  }

  /** Splitting a name followed by `rest` (empty, or starting with `/`)
      yields the name as the first segment. */
  lemma {:induction false} SplitName(name: Text, rest: Text)
    requires '/' !in name
    requires rest == [] || rest[0] == '/'
    ensures rest == [] ==> Split(name + rest) == [name]
    ensures rest != [] ==> Split(name + rest) == [name] + Split(rest[1..])
  {
    if name == [] {
      assert name + rest == rest;
    } else {
      SplitName(name[1..], rest);
      assert (name + rest)[1..] == name[1..] + rest;
      assert [name[0]] + name[1..] == name;
    }
  }

  lemma {:induction false} FoldNames(stack: seq<Text>, names: seq<Text>)
    requires forall k | 0 <= k < |stack| :: IsName(stack[k])
    requires forall k | 0 <= k < |names| :: IsName(names[k])
    ensures Fold(stack, names) == stack + names
    decreases names
  {
    if names != [] {
      FoldNames(stack + [names[0]], names[1..]);
      assert stack + [names[0]] + names[1..] == stack + names;
    }
  }

  lemma SplitSlash(q: Text)
    ensures Split("/" + q) == [[]] + Split(q)
  {
    var p := "/" + q;
    assert p[0] == '/' && p[1..] == q;
  }

  /** A leading empty segment (the root) folds away. */
  lemma FoldSkipsRoot(segs: seq<Text>)
    requires forall k | 0 <= k < |segs| :: IsSegment(segs[k])
    ensures Fold([], [[]] + segs) == Fold([], segs)
  {
    var all := [[]] + segs;
    assert all[0] == [] && all[1..] == segs;
  }

  /** The names of a canonical path fold back to themselves. */
  lemma FoldJoined(names: seq<Text>)
    requires forall k | 0 <= k < |names| :: IsName(names[k])
    ensures Fold([], Split(JoinSegments(names))) == names
  {
    SplitJoin(names);
    if names == [] {
      assert Split(JoinSegments(names)) == [[]];
      assert Fold([], [[]]) == [];
    } else {
      FoldNames([], names);
      assert [] + names == names;
    }
  }

  /** Normalisation is idempotent: a canonical path is its own normal form. */
  lemma NormaliseCanonical(names: seq<Text>)
    requires forall k | 0 <= k < |names| :: IsName(names[k])
    ensures Normalise("/" + JoinSegments(names)) == "/" + JoinSegments(names)
  {
    var j := JoinSegments(names);
    SplitSlash(j);
    FoldSkipsRoot(Split(j));
    FoldJoined(names);
  }

  /** Every resolved registry key is canonical, and resolving it again
      (as `path.resolve` of an absolute path) gives it back unchanged. */
  lemma ResolveCanonical(dir: Path, rel: Text)
    ensures IsCanonical(Resolve(dir, rel))
    ensures Normalise(Resolve(dir, rel)) == Resolve(dir, rel)
  {
    var r := Resolve(dir, rel);
    var p := if rel != [] && rel[0] == '/' then rel else dir + "/" + rel;
    var names := Fold([], Split(p));
    assert r == "/" + JoinSegments(names);
    NormaliseCanonical(names);
  }
}
