/**
 * The recursive directory walk `get_dirs` of `copymanager.py` (and its
 * asynchronous twin in `async.py`). A directory is a `Dir` holding its
 * subdirectories in listing order; the walk starts from a path naming the
 * root of that tree.
 */
module Discovery {
  import opened Paths

  /** A directory and its immediate subdirectories, in `os.listdir` order; plain files are not represented. */
  datatype Dir = Dir(name: string, subdirs: seq<Dir>)

  /**
   * `get_dirs(path, depth)` where `d` is the directory found at `path`:
   * depth 0 reports `path` itself, a directory without subdirectories
   * reports its parent, any other directory reports what its subdirectories
   * report, one level shallower, in listing order. A negative depth never
   * reaches 0, so the walk then goes down to the childless directories.
   */
  function GetDirs(path: string, d: Dir, depth: int): (r: seq<string>)
    ensures |r| >= 1
    decreases d
  {
    if depth == 0 then [path]
    else if |d.subdirs| == 0 then [Dirname(path)]
    else GatherFrom(path, d, depth, 0)
  }

  /** What the subdirectories of `d` from position `i` on report, one after the other. */
  function GatherFrom(path: string, d: Dir, depth: int, i: nat): (r: seq<string>)
    requires i <= |d.subdirs|
    ensures i < |d.subdirs| ==> |r| >= 1
    decreases d, |d.subdirs| - i
  {
    if i == |d.subdirs| then []
    else
      var child := d.subdirs[i];
      GetDirs(Join(path, child.name), child, depth - 1) + GatherFrom(path, d, depth, i + 1)
  }

  /** A path is reported by the subdirectories from position `i` on exactly when one of them reports it. */
  lemma {:induction false} GatherFromMember(path: string, d: Dir, depth: int, i: nat, r: string)
    requires i <= |d.subdirs|
    ensures r in GatherFrom(path, d, depth, i) <==>
      exists k :: i <= k < |d.subdirs| && r in GetDirs(Join(path, d.subdirs[k].name), d.subdirs[k], depth - 1)
    decreases |d.subdirs| - i
  {
    if i < |d.subdirs| {
      GatherFromMember(path, d, depth, i + 1, r);
    }
  }

  // A route names a directory of the tree by the positions of the
  // subdirectories taken from the top, so `[]` is the top itself.

  predicate IsRoute(d: Dir, route: seq<nat>)
    decreases |route|
  {
    |route| == 0 || (route[0] < |d.subdirs| && IsRoute(d.subdirs[route[0]], route[1..]))
  }

  /** The directory a route leads to. */
  function NodeAt(d: Dir, route: seq<nat>): Dir
    requires IsRoute(d, route)
    decreases |route|
  {
    if |route| == 0 then d else NodeAt(d.subdirs[route[0]], route[1..])
  }

  /** The path of the directory a route leads to, built with `os.path.join` from `path`. */
  function PathAt(path: string, d: Dir, route: seq<nat>): string
    requires IsRoute(d, route)
    decreases |route|
  {
    if |route| == 0 then path
    else
      var child := d.subdirs[route[0]];
      PathAt(Join(path, child.name), child, route[1..])
  }

  /**
   * The walk stops along `route` and reports `r` there: either the route is
   * exactly `depth` long and `r` is its directory, or the walk had depth to
   * spare, the directory has no subdirectories and `r` is its parent.
   */
  predicate StopsAt(path: string, d: Dir, depth: int, route: seq<nat>, r: string)
  {
    IsRoute(d, route) &&
    ((|route| == depth && r == PathAt(path, d, route)) ||
     ((depth < 0 || |route| < depth) && |NodeAt(d, route).subdirs| == 0 && r == Dirname(PathAt(path, d, route))))
  }

  /**
   * What the walk reports, characterised without recursion: a path is in the
   * result of `get_dirs` exactly when the walk stops somewhere in the tree
   * and reports that path there.
   */
  lemma {:induction false} GetDirsReports(path: string, d: Dir, depth: int, r: string)
    ensures r in GetDirs(path, d, depth) <==> exists route: seq<nat> :: StopsAt(path, d, depth, route, r)
    decreases d
  {
    if r in GetDirs(path, d, depth) {
      GetDirsSound(path, d, depth, r);
    }
    if exists route: seq<nat> :: StopsAt(path, d, depth, route, r) {
      var route: seq<nat> :| StopsAt(path, d, depth, route, r);
      GetDirsComplete(path, d, depth, route, r);
    }
  }

  lemma {:induction false} GetDirsSound(path: string, d: Dir, depth: int, r: string)
    requires r in GetDirs(path, d, depth)
    ensures exists route: seq<nat> :: StopsAt(path, d, depth, route, r)
    decreases d
  {
    if depth == 0 || |d.subdirs| == 0 {
      StopsHere(path, d, depth, r);
    } else {
      GatherFromMember(path, d, depth, 0, r);
      var k :| 0 <= k < |d.subdirs| && r in GetDirs(Join(path, d.subdirs[k].name), d.subdirs[k], depth - 1);
      var child := d.subdirs[k];
      GetDirsSound(Join(path, child.name), child, depth - 1, r);
      var rest: seq<nat> :| StopsAt(Join(path, child.name), child, depth - 1, rest, r);
      StopsAtChild(path, d, depth, k, rest, r);
    }
  }

  /** At depth 0 or in a leaf the walk stops where it is. */
  lemma StopsHere(path: string, d: Dir, depth: int, r: string)
    requires depth == 0 || |d.subdirs| == 0
    requires r in GetDirs(path, d, depth)
    ensures StopsAt(path, d, depth, [], r)
  {
  }

  /** A stop below subdirectory `k` is a stop of the walk from `d`, one step longer. */
  lemma StopsAtChild(path: string, d: Dir, depth: int, k: nat, rest: seq<nat>, r: string)
    requires k < |d.subdirs| && depth != 0
    requires StopsAt(Join(path, d.subdirs[k].name), d.subdirs[k], depth - 1, rest, r)
    ensures StopsAt(path, d, depth, [k] + rest, r)
  {
    var route := [k] + rest;
    var child := d.subdirs[k];
    assert route[1..] == rest;
    assert IsRoute(d, route);
    assert NodeAt(d, route) == NodeAt(child, rest);
    assert PathAt(path, d, route) == PathAt(Join(path, child.name), child, rest);
  }

  lemma {:induction false} GetDirsComplete(path: string, d: Dir, depth: int, route: seq<nat>, r: string)
    requires StopsAt(path, d, depth, route, r)
    ensures r in GetDirs(path, d, depth)
    decreases d
  {
    if |route| > 0 {
      var k := route[0];
      var child := d.subdirs[k];
      assert StopsAt(Join(path, child.name), child, depth - 1, route[1..], r);
      GetDirsComplete(Join(path, child.name), child, depth - 1, route[1..], r);
      GatherFromMember(path, d, depth, 0, r);
    }
  }

  /**
   * The leaf convention: below depth 0, a directory without subdirectories
   * reports a path other than its own (its parent), unless its path is made
   * only of slashes; at depth 0 it reports its own path.
   */
  lemma LeafReportsParent(path: string, d: Dir, depth: int)
    requires |d.subdirs| == 0
    ensures depth == 0 ==> GetDirs(path, d, depth) == [path]
    ensures depth != 0 ==> GetDirs(path, d, depth) == [Dirname(path)]
    ensures depth != 0 && !AllSlashes(path) ==> Dirname(path) != path && |Dirname(path)| < |path|
  {
    DirnameShorter(path);
  }

  /** The walk over a two-level tree: `/root` holding `a` (which holds `x` and `y`) and `b`. */
  function ExampleTree(): Dir
  {
    Dir("root", [Dir("a", [Dir("x", []), Dir("y", [])]), Dir("b", [])])
  }

  /**
   * Both childless subdirectories of `a` report `/root/a`, and the childless
   * `b` reports `/root`, so the set of discovered paths is `{/root/a, /root}`.
   */
  lemma ExampleWalk()
    ensures GetDirs("/root", ExampleTree(), 4) == ["/root/a", "/root/a", "/root"]
  {
    var t := ExampleTree();
    var a := t.subdirs[0];
    assert Join("/root", "a") == "/root/a";
    assert Join("/root", "b") == "/root/b";
    assert Join("/root/a", "x") == "/root/a/x";
    assert Join("/root/a", "y") == "/root/a/y";
    DirnameAfterName("/root/a", "x");
    DirnameAfterName("/root/a", "y");
    DirnameAfterName("/root", "b");
    assert GetDirs("/root/a/x", a.subdirs[0], 2) == ["/root/a"];
    assert GetDirs("/root/a/y", a.subdirs[1], 2) == ["/root/a"];
    assert GatherFrom("/root/a", a, 3, 2) == [];
    assert GatherFrom("/root/a", a, 3, 1) == ["/root/a"];
    assert GetDirs("/root/a", a, 3) == ["/root/a", "/root/a"];
    assert GetDirs("/root/b", t.subdirs[1], 3) == ["/root"];
    assert GatherFrom("/root", t, 4, 2) == [];
    assert GatherFrom("/root", t, 4, 1) == ["/root"];
  }

  /**
   * The order in which Python happens to iterate a set: each element once.
   * The order itself is not modelled.
   */
  method Enumerate(xs: set<string>) returns (q: seq<string>)
    ensures forall p :: p in q <==> p in xs
    ensures forall i, j :: 0 <= i < j < |q| ==> q[i] != q[j]
  {
    q := [];
    var rest := xs;
    while rest != {}
      invariant rest <= xs
      invariant forall p :: p in q <==> p in xs && p !in rest
      invariant forall i, j :: 0 <= i < j < |q| ==> q[i] != q[j]
      decreases rest
    {
      var p :| p in rest;
      q := q + [p];
      rest := rest - {p};
    }
  }
}
