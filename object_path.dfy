/**
 * Object paths: slash-separated strings of child names with the special
 * segments `.` (this object), `..` (the parent) and `*` (any child), and the
 * resolver `find_by_path` that walks them through the hierarchy
 * (src/hierarchy.rs and the earlier, equivalent revision in src/lib.rs).
 */
module ObjectPath {
  import opened Wrappers
  import opened Seqs
  import opened Hierarchy

  // ---------------------------------------------------------------------------
  // Splitting a path into segments

  /** `str::split('/')`: the pieces between slashes; always at least one, possibly empty. */
  function Split(s: string): (r: seq<string>)
    ensures |r| >= 1
    ensures forall i | 0 <= i < |r| :: '/' !in r[i]
  {
    if s == [] then [""]
    else
      var rest := Split(s[1..]);
      if s[0] == '/' then [""] + rest
      else [[s[0]] + rest[0]] + rest[1..]
  }

  /** The segments written back with a slash between each two. */
  function Join(segs: seq<string>): string
    requires |segs| >= 1
  {
    if |segs| == 1 then segs[0] else segs[0] + "/" + Join(segs[1..])
  }

  /** Splitting loses nothing: joining the segments gives the path back. */
  lemma {:induction false} JoinSplit(s: string)
    ensures Join(Split(s)) == s
  {
    if s != [] {
      var rest := Split(s[1..]);
      JoinSplit(s[1..]);
      if s[0] == '/' {
        assert Split(s) == [""] + rest;
        assert ([""] + rest)[1..] == rest;
      } else {
        var r := Split(s);
        assert r[1..] == rest[1..];
        if |rest| == 1 {
          assert r == [[s[0]] + rest[0]];
        } else {
          assert Join(rest) == rest[0] + "/" + Join(rest[1..]);
        }
      }
    }
  }

  /** Splitting a join of slash-free segments gives the same segments back. */
  lemma {:induction false} SplitJoin(segs: seq<string>)
    requires |segs| >= 1
    requires forall i | 0 <= i < |segs| :: '/' !in segs[i]
    ensures Split(Join(segs)) == segs
    decreases |segs|, |segs[0]|
  {
    var h := segs[0];
    if h == [] {
      if |segs| > 1 {
        SplitJoin(segs[1..]);
        assert Join(segs) == "/" + Join(segs[1..]);
        assert ("/" + Join(segs[1..]))[1..] == Join(segs[1..]);
      }
    } else {
      var segs' := [h[1..]] + segs[1..];
      assert '/' !in segs'[0] by { assert forall c | c in h[1..] :: c in h; }
      SplitJoin(segs');
      assert Join(segs) == [h[0]] + Join(segs') by {
        if |segs| > 1 {
          assert segs'[1..] == segs[1..];
        }
      }
      assert h == [h[0]] + h[1..];
      assert (h[0] != '/') by { assert h[0] in h; }
    }
  }

  // ---------------------------------------------------------------------------
  // Resolving segments

  /** The first child of `n`, in host order, whose name equals `seg` exactly; unnamed children never match. */
  function NamedChild(w: World, n: Entity, seg: string): (r: Option<Entity>)
    ensures r.None? <==> forall c | c in Children(w, n) :: Name(w, c) != Some(seg)
    ensures r.Some? ==>
      var cs := Children(w, n);
      exists i | 0 <= i < |cs| ::
        cs[i] == r.value && Name(w, cs[i]) == Some(seg) && forall j | 0 <= j < i :: Name(w, cs[j]) != Some(seg)
  {
    First(Children(w, n), (c: Entity) => Name(w, c) == Some(seg))
  }

  /**
   * The free function `find_by_path`: consume the segments left to right from
   * `curr`. It fails exactly when no choice of steps along `tail` reaches a
   * node, and what it returns is reached by one.
   */
  function Resolve(w: World, curr: Entity, tail: seq<string>): (r: Option<Entity>)
    ensures r.None? <==> Endpoints(w, curr, tail) == {}
    ensures r.Some? ==> r.value in Endpoints(w, curr, tail)
    decreases |tail|, 0
  {
    if tail == [] then Some(curr)
    else
      var head := tail[0];
      var rest := tail[1..];
      var steps := Steps(w, curr, head);
      assert Endpoints(w, curr, tail) == EndpointsFrom(w, steps, rest);
      if head == "." || head == "" then
        assert steps == [curr] && steps[1..] == [];
        assert Endpoints(w, curr, tail) == Endpoints(w, curr, rest) + EndpointsFrom(w, [], rest);
        Resolve(w, curr, rest)
      else if head == ".." then
        match Parent(w, curr)
        case Some(p) =>
          assert steps == [p] && steps[1..] == [];
          assert Endpoints(w, curr, tail) == Endpoints(w, p, rest) + EndpointsFrom(w, [], rest);
          Resolve(w, p, rest)
        case None => None
      else if head == "*" then FirstResolving(w, Children(w, curr), rest)
      else
        match NamedChild(w, curr, head)
        case Some(c) =>
          assert steps == [c] && steps[1..] == [];
          assert Endpoints(w, curr, tail) == Endpoints(w, c, rest) + EndpointsFrom(w, [], rest);
          Resolve(w, c, rest)
        case None => None
  }

  /**
   * The `*` loop: try the children of `cs` in order and keep the first
   * result. It fails exactly when no child leads to a node, and what it
   * returns is reached through one of the children.
   */
  function FirstResolving(w: World, cs: seq<Entity>, rest: seq<string>): (r: Option<Entity>)
    ensures r.None? <==> EndpointsFrom(w, cs, rest) == {}
    ensures r.Some? ==> r.value in EndpointsFrom(w, cs, rest)
    decreases |rest|, |cs| + 1
  {
    if cs == [] then None
    else
      match Resolve(w, cs[0], rest)
      case Some(x) => Some(x)
      case None => FirstResolving(w, cs[1..], rest)
  }

  /**
   * The `*` loop gives the result for the earliest child of `cs` from which
   * `rest` resolves, and nothing when it resolves from none.
   */
  lemma {:induction false} FirstResolvingIsEarliest(w: World, cs: seq<Entity>, rest: seq<string>)
    ensures var r := FirstResolving(w, cs, rest);
      && (r.None? <==> forall i | 0 <= i < |cs| :: Resolve(w, cs[i], rest).None?)
      && (r.Some? ==> exists i | 0 <= i < |cs| ::
            Resolve(w, cs[i], rest) == r && forall j | 0 <= j < i :: Resolve(w, cs[j], rest).None?)
  {
    if cs != [] && Resolve(w, cs[0], rest).None? {
      FirstResolvingIsEarliest(w, cs[1..], rest);
      assert forall i | 1 <= i < |cs| :: cs[i] == cs[1..][i - 1];
    }
  }

  /** `Object::find_by_path`: split the path on every `/`, then resolve the pieces from `e`. */
  function FindByPath(w: World, e: Entity, path: string): (r: Option<Entity>)
    ensures r.None? <==> Endpoints(w, e, Split(path)) == {}
    ensures r.Some? ==> r.value in Endpoints(w, e, Split(path))
  {
    Resolve(w, e, Split(path))
  }

  // ---------------------------------------------------------------------------
  // Reference semantics: every node a path can denote

  /**
   * The nodes one segment may step to from `n`: `n` itself for `.` or an
   * empty segment, the parent for `..`, every child for `*`, and the first
   * child of that name for any other segment.
   */
  function Steps(w: World, n: Entity, seg: string): seq<Entity> {
    if seg == "." || seg == "" then [n]
    else if seg == ".." then
      match Parent(w, n)
      case Some(p) => [p]
      case None => []
    else if seg == "*" then Children(w, n)
    else
      match NamedChild(w, n, seg)
      case Some(c) => [c]
      case None => []
  }

  /** Every node some choice of steps along `segs` ends at. */
  function Endpoints(w: World, n: Entity, segs: seq<string>): set<Entity>
    decreases |segs|, 0
  {
    if segs == [] then {n}
    else EndpointsFrom(w, Steps(w, n, segs[0]), segs[1..])
  }

  /** Every node some choice of steps along `rest` ends at, starting from any of `cs`. */
  function EndpointsFrom(w: World, cs: seq<Entity>, rest: seq<string>): set<Entity>
    decreases |rest|, |cs| + 1
  {
    if cs == [] then {} else Endpoints(w, cs[0], rest) + EndpointsFrom(w, cs[1..], rest)
  }

  // ---------------------------------------------------------------------------
  // One segment at a time

  /** No segments left: the current node is the answer. */
  lemma ResolveEmpty(w: World, n: Entity)
    ensures Resolve(w, n, []) == Some(n)
  {
  }

  /** `.` and the empty segment leave the current node unchanged. */
  lemma ResolveDot(w: World, n: Entity, seg: string, rest: seq<string>)
    requires seg == "." || seg == ""
    ensures Resolve(w, n, [seg] + rest) == Resolve(w, n, rest)
  {
    assert ([seg] + rest)[1..] == rest;
  }

  /** A path of nothing but `.` and empty segments leads back to where it started. */
  lemma {:induction false} ResolveOnlyDots(w: World, n: Entity, segs: seq<string>)
    requires forall i | 0 <= i < |segs| :: segs[i] == "." || segs[i] == ""
    ensures Resolve(w, n, segs) == Some(n)
  {
    if segs != [] {
      ResolveOnlyDots(w, n, segs[1..]);
    }
  }

  /** `..` fails at a root and otherwise continues from the parent. */
  lemma ResolveUp(w: World, n: Entity, rest: seq<string>)
    ensures Resolve(w, n, [".."] + rest) ==
      match Parent(w, n)
      case None => None
      case Some(p) => Resolve(w, p, rest)
  {
    assert ([".."] + rest)[1..] == rest;
  }

  /**
   * `*` gives the result for the earliest child from which the rest resolves,
   * and nothing when there are no children or none succeeds.
   */
  lemma ResolveStar(w: World, n: Entity, rest: seq<string>)
    ensures var cs := Children(w, n);
      var r := Resolve(w, n, ["*"] + rest);
      && (r.None? <==> forall i | 0 <= i < |cs| :: Resolve(w, cs[i], rest).None?)
      && (r.Some? ==> exists i | 0 <= i < |cs| ::
            Resolve(w, cs[i], rest) == r && forall j | 0 <= j < i :: Resolve(w, cs[j], rest).None?)
  {
    assert (["*"] + rest)[1..] == rest;
    FirstResolvingIsEarliest(w, Children(w, n), rest);
  }

  /**
   * A literal segment commits to the first child of that name: the rest is
   * resolved from it alone, and later children of the same name are never tried.
   */
  lemma ResolveLiteral(w: World, n: Entity, seg: string, rest: seq<string>, i: nat)
    requires seg !in {".", "", "..", "*"}
    requires var cs := Children(w, n);
      i < |cs| && Name(w, cs[i]) == Some(seg) && forall j | 0 <= j < i :: Name(w, cs[j]) != Some(seg)
    ensures Resolve(w, n, [seg] + rest) == Resolve(w, Children(w, n)[i], rest)
  {
    assert ([seg] + rest)[1..] == rest;
    var cs := Children(w, n);
    var c := NamedChild(w, n, seg);
    var k :| 0 <= k < |cs| && cs[k] == c.value && Name(w, cs[k]) == Some(seg)
      && forall j | 0 <= j < k :: Name(w, cs[j]) != Some(seg);
    assert k == i;
  }

  /** A literal segment that names no child resolves to nothing: there is no partial match. */
  lemma ResolveLiteralMissing(w: World, n: Entity, seg: string, rest: seq<string>)
    requires seg !in {".", "", "..", "*"}
    requires forall c | c in Children(w, n) :: Name(w, c) != Some(seg)
    ensures Resolve(w, n, [seg] + rest) == None
  {
    assert ([seg] + rest)[1..] == rest;
  }

  // ---------------------------------------------------------------------------
  // Composition

  /** Resolve `segs` from where an earlier resolution ended; nothing if it failed. */
  function Continue(w: World, r: Option<Entity>, segs: seq<string>): Option<Entity> {
    match r
    case None => None
    case Some(m) => Resolve(w, m, segs)
  }

  /**
   * Without `*` there is no backtracking, so a path resolves piece by piece:
   * resolving `s + t` is resolving `s`, then `t` from where `s` ended.
   */
  lemma {:induction false} ResolveAppend(w: World, n: Entity, s: seq<string>, t: seq<string>)
    requires forall i | 0 <= i < |s| :: s[i] != "*"
    ensures Resolve(w, n, s + t) == Continue(w, Resolve(w, n, s), t)
    decreases |s|
  {
    if s == [] {
      assert s + t == t;
    } else {
      var head := s[0];
      assert (s + t)[0] == head && (s + t)[1..] == s[1..] + t;
      var steps := Steps(w, n, head);
      if head == "." || head == "" {
        ResolveAppend(w, n, s[1..], t);
      } else if head == ".." {
        match Parent(w, n)
        case None =>
        case Some(p) => ResolveAppend(w, p, s[1..], t);
      } else {
        match NamedChild(w, n, head)
        case None =>
        case Some(c) => ResolveAppend(w, c, s[1..], t);
      }
    }
  }

  /** In a consistent world, stepping down to a named child and back up with `..` is a no-op. */
  lemma DownThenUp(w: World, n: Entity, seg: string, rest: seq<string>)
    requires Consistent(w)
    requires seg !in {".", "", "..", "*"} && NamedChild(w, n, seg).Some?
    ensures Resolve(w, n, [seg, ".."] + rest) == Resolve(w, n, rest)
  {
    var c := NamedChild(w, n, seg).value;
    ChildOfMatchesChildren(w, c, n);
    assert ([seg, ".."] + rest)[1..] == [".."] + rest;
    assert ([".."] + rest)[1..] == rest;
  }

  // ---------------------------------------------------------------------------
  // The path entry point

  /** The empty path and `.` both name the object itself. */
  lemma FindByPathSelf(w: World, e: Entity)
    ensures FindByPath(w, e, "") == Some(e)
    ensures FindByPath(w, e, ".") == Some(e)
  {
    assert Split("") == [""];
    assert "."[1..] == "" && "."[0] == '.';
    assert ['.'] + "" == ".";
    assert Split(".") == ["."];
    ResolveOnlyDots(w, e, [""]);
    ResolveOnlyDots(w, e, ["."]);
  }

  /** `find_by_path` is the resolver applied to the path's `/`-separated pieces. */
  lemma FindByPathSegments(w: World, e: Entity, segs: seq<string>)
    requires |segs| >= 1 && forall i | 0 <= i < |segs| :: '/' !in segs[i]
    ensures FindByPath(w, e, Join(segs)) == Resolve(w, e, segs)
  {
    SplitJoin(segs);
  }
}
