/**
 * The older asyncio variant, `async.py`: the same directory discovery, the
 * progress file in place of the task store, the discovered directories
 * handed to the queue level by level, and its own rule for the status of
 * a copy.
 */
module AsyncTransfer {
  import opened Results
  import opened Paths
  import opened Discovery
  import opened ProgressFile
  import opened TaskStore
  import opened Runners

  /**
   * `get_dirs` with the children's results gathered one after the other
   * (`asyncio.gather` keeps the order of its arguments), flattened by
   * `chain.from_iterable`: the same three cases as the synchronous version.
   */
  method GetDirsAsync(path: string, d: Dir, depth: int) returns (r: seq<string>)
    ensures r == GetDirs(path, d, depth)
    ensures depth == 0 ==> r == [path]
    ensures depth != 0 && |d.subdirs| == 0 ==> r == [Dirname(path)]
    ensures |r| >= 1
    decreases d
  {
    if depth == 0 {
      return [path];
    }
    if |d.subdirs| == 0 {
      return [Dirname(path)];
    }
    r := [];
    var i := 0;
    while i < |d.subdirs|
      invariant 0 <= i <= |d.subdirs|
      invariant r + GatherFrom(path, d, depth, i) == GatherFrom(path, d, depth, 0)
    {
      var child := d.subdirs[i];
      var got := GetDirsAsync(Join(path, child.name), child, depth - 1);
      assert GatherFrom(path, d, depth, i) == got + GatherFrom(path, d, depth, i + 1);
      assert (r + got) + GatherFrom(path, d, depth, i + 1) == r + GatherFrom(path, d, depth, i);
      r := r + got;
      i := i + 1;
    }
    assert GatherFrom(path, d, depth, i) == [];
  }

  /**
   * `discover_paths`: the distinct found directories (a `set`, iterated in
   * an order that is not modelled) are persisted, the file is read back, and
   * the sources still to be copied to `copyTo` are returned with the new
   * file content.
   */
  method DiscoverPaths(content: string, copyFrom: string, copyTo: string, tree: Dir, depth: int)
    returns (r: Result<(string, seq<string>), string>)
    ensures LoadDirs(content).Err? ==> r.Err?
    ensures r.Ok? ==> |content| <= |r.value.0| && r.value.0[..|content|] == content
    ensures (LoadDirs(content).Ok? && EndsLine(content) && Plain(copyTo) &&
             forall p :: p in GetDirs(copyFrom, tree, depth) ==> Plain(p)) ==>
        r.Ok? &&
        var existing := LoadDirs(content).value;
        forall p :: p in r.value.1 <==>
          (exists k :: 0 <= k < |existing| && existing[k].source == p && ShouldProcess(existing[k], copyTo)) ||
          (p in GetDirs(copyFrom, tree, depth) && p !in Sources(existing))
  {
    var found := GetDirsAsync(copyFrom, tree, depth);
    var dirs := Enumerate(set p | p in found);
    r := DiscoverFrom(content, dirs, copyTo);
    if LoadDirs(content).Ok? && EndsLine(content) && Plain(copyTo) && forall p :: p in found ==> Plain(p) {
      DiscoverListsExactly(content, dirs, copyTo);
    }
  }

  /*
   * The sort and the grouping are stated for any key, `group_levels` being
   * the one `process_transfer` uses.
   */

  /** The directories of a list whose key is `k`, in list order. */
  function AtKey(xs: seq<string>, key: string -> int, k: int): seq<string>
  {
    if |xs| == 0 then [] else (if key(xs[0]) == k then [xs[0]] else []) + AtKey(xs[1..], key, k)
  }

  /** The selection holds exactly the directories of the list with that key. */
  lemma {:induction false} AtKeyMembers(xs: seq<string>, key: string -> int, k: int)
    ensures forall p :: p in AtKey(xs, key, k) <==> p in xs && key(p) == k
    decreases |xs|
  {
    if |xs| > 0 {
      AtKeyMembers(xs[1..], key, k);
      assert forall p :: p in xs <==> p == xs[0] || p in xs[1..];
    }
  }

  /** The keys never decrease along the list. */
  predicate KeySorted(xs: seq<string>, key: string -> int)
  {
    forall i, j :: 0 <= i < j < |xs| ==> key(xs[i]) <= key(xs[j])
  }

  /** The tail of a sorted list is sorted. */
  lemma SortedTail(xs: seq<string>, key: string -> int)
    requires KeySorted(xs, key) && |xs| > 0
    ensures KeySorted(xs[1..], key)
  {
    var tail := xs[1..];
    forall i, j | 0 <= i < j < |tail|
      ensures key(tail[i]) <= key(tail[j])
    {
      assert tail[i] == xs[i + 1] && tail[j] == xs[j + 1];
    }
  }

  /** Put `p` in front of the first directory whose key is not below its own. */
  function InsertByKey(p: string, xs: seq<string>, key: string -> int): (r: seq<string>)
    ensures multiset(r) == multiset(xs) + multiset{p}
    ensures |r| > 0 && (r[0] == p || (|xs| > 0 && r[0] == xs[0]))
  {
    if |xs| == 0 then [p]
    else if key(p) <= key(xs[0]) then [p] + xs
    else
      assert xs == [xs[0]] + xs[1..];
      [xs[0]] + InsertByKey(p, xs[1..], key)
  }

  /** Inserting into a sorted list keeps it sorted. */
  lemma {:induction false} InsertKeepsSorted(p: string, xs: seq<string>, key: string -> int)
    requires KeySorted(xs, key)
    ensures KeySorted(InsertByKey(p, xs, key), key)
    decreases |xs|
  {
    var r := InsertByKey(p, xs, key);
    if |xs| == 0 {
    } else if key(p) <= key(xs[0]) {
      assert r == [p] + xs;
      forall i, j | 0 <= i < j < |r|
        ensures key(r[i]) <= key(r[j])
      {
        assert r[j] == xs[j - 1];
        if i > 0 {
          assert r[i] == xs[i - 1];
        } else if j > 1 {
          assert key(xs[0]) <= key(xs[j - 1]);
        }
      }
    } else {
      var tail := xs[1..];
      var rest := InsertByKey(p, tail, key);
      assert r == [xs[0]] + rest;
      assert KeySorted(tail, key);
      InsertKeepsSorted(p, tail, key);
      assert key(xs[0]) <= key(rest[0]) by {
        if rest[0] != p {
          assert rest[0] == xs[1];
        }
      }
      forall i, j | 0 <= i < j < |r|
        ensures key(r[i]) <= key(r[j])
      {
        assert r[j] == rest[j - 1];
        if i > 0 {
          assert r[i] == rest[i - 1];
        } else if j > 1 {
          assert key(rest[0]) <= key(rest[j - 1]);
        }
      }
    }
  }

  /** `sorted(dirs, key=key)`: a stable sort by key, smallest first. */
  function SortByKey(xs: seq<string>, key: string -> int): (r: seq<string>)
    ensures multiset(r) == multiset(xs)
    ensures KeySorted(r, key)
  {
    if |xs| == 0 then []
    else
      assert xs == [xs[0]] + xs[1..];
      InsertKeepsSorted(xs[0], SortByKey(xs[1..], key), key);
      InsertByKey(xs[0], SortByKey(xs[1..], key), key)
  }

  /** Inserting `p` into a sorted list puts it in front of the directories with its key. */
  lemma {:induction false} InsertAtKey(p: string, xs: seq<string>, key: string -> int, k: int)
    requires KeySorted(xs, key)
    ensures AtKey(InsertByKey(p, xs, key), key, k) == (if key(p) == k then [p] else []) + AtKey(xs, key, k)
    decreases |xs|
  {
    if |xs| == 0 {
      AtKeyCons(p, [], key, k);
    } else if key(p) <= key(xs[0]) {
      AtKeyCons(p, xs, key, k);
    } else {
      var x, tail := xs[0], xs[1..];
      SortedTail(xs, key);
      InsertAtKey(p, tail, key, k);
      var rest := InsertByKey(p, tail, key);
      assert InsertByKey(p, xs, key) == [x] + rest;
      assert xs == [x] + tail;
      AtKeyCons(x, rest, key, k);
      AtKeyCons(x, tail, key, k);
      if key(p) == k {
        assert key(x) != k;
        assert AtKey([x] + rest, key, k) == [p] + AtKey(tail, key, k);
      } else {
        assert AtKey(rest, key, k) == AtKey(tail, key, k);
      }
    }
  }

  /** Selecting from a list with a head: the head if it has the key, then the rest. */
  lemma AtKeyCons(x: string, ys: seq<string>, key: string -> int, k: int)
    ensures AtKey([x] + ys, key, k) == (if key(x) == k then [x] else []) + AtKey(ys, key, k)
  {
    assert ([x] + ys)[1..] == ys;
  }

  /** The sort is stable: for every key the directories keep their order. */
  lemma {:induction false} SortKeepsKeyOrder(xs: seq<string>, key: string -> int, k: int)
    ensures AtKey(SortByKey(xs, key), key, k) == AtKey(xs, key, k)
    decreases |xs|
  {
    if |xs| > 0 {
      SortKeepsKeyOrder(xs[1..], key, k);
      InsertAtKey(xs[0], SortByKey(xs[1..], key), key, k);
    }
  }

  /** One group of `groupby`: a key and the consecutive directories with it. */
  datatype KeyGroup = KeyGroup(key: int, dirs: seq<string>)

  /** The directories of the groups, one group after the other. */
  function Flatten(gs: seq<KeyGroup>): seq<string>
  {
    if |gs| == 0 then [] else gs[0].dirs + Flatten(gs[1..])
  }

  /** Every group is non-empty and holds only directories with its key. */
  predicate WellGrouped(gs: seq<KeyGroup>, key: string -> int)
  {
    forall i :: 0 <= i < |gs| ==>
      |gs[i].dirs| > 0 && forall p :: p in gs[i].dirs ==> key(p) == gs[i].key
  }

  /**
   * `groupby(xs, key)`: runs of consecutive directories with one key.
   * Flattening the groups gives the list back.
   */
  function GroupByKey(xs: seq<string>, key: string -> int): (gs: seq<KeyGroup>)
    ensures Flatten(gs) == xs
    ensures |xs| > 0 ==> |gs| > 0 && gs[0].key == key(xs[0])
  {
    if |xs| == 0 then []
    else
      var rest := GroupByKey(xs[1..], key);
      assert xs == [xs[0]] + xs[1..];
      if |rest| > 0 && rest[0].key == key(xs[0]) then
        var gs := [KeyGroup(rest[0].key, [xs[0]] + rest[0].dirs)] + rest[1..];
        assert gs[1..] == rest[1..];
        gs
      else
        var gs := [KeyGroup(key(xs[0]), [xs[0]])] + rest;
        assert gs[1..] == rest;
        gs
  }

  /** No two neighbouring groups have the same key: the runs are maximal. */
  predicate NeighboursDiffer(gs: seq<KeyGroup>)
  {
    forall i :: 0 <= i < |gs| - 1 ==> gs[i].key != gs[i + 1].key
  }

  /** Each group is a non-empty run of one key, and neighbouring groups have different keys. */
  lemma {:induction false} GroupsAreRuns(xs: seq<string>, key: string -> int)
    ensures WellGrouped(GroupByKey(xs, key), key)
    ensures NeighboursDiffer(GroupByKey(xs, key))
    decreases |xs|
  {
    if |xs| > 0 {
      var rest := GroupByKey(xs[1..], key);
      GroupsAreRuns(xs[1..], key);
      var gs := GroupByKey(xs, key);
      if |rest| > 0 && rest[0].key == key(xs[0]) {
        assert forall i :: 1 <= i < |gs| ==> gs[i] == rest[i];
        assert forall p :: p in gs[0].dirs ==> p == xs[0] || p in rest[0].dirs;
        assert gs[0].key == rest[0].key;
        assert |gs| > 1 ==> gs[0].key != gs[1].key by {
          if |gs| > 1 {
            assert gs[1] == rest[1];
            assert rest[0].key != rest[1].key;
          }
        }
      } else {
        assert forall i :: 1 <= i < |gs| ==> gs[i] == rest[i - 1];
        assert |gs| > 1 ==> gs[0].key != gs[1].key;
      }
    }
  }

  /** Every directory of the flattened list comes from some group. */
  lemma {:induction false} FlattenFrom(gs: seq<KeyGroup>, p: string)
    requires p in Flatten(gs)
    ensures exists i :: 0 <= i < |gs| && p in gs[i].dirs
    decreases |gs|
  {
    if p !in gs[0].dirs {
      FlattenFrom(gs[1..], p);
      var i :| 0 <= i < |gs[1..]| && p in gs[1..][i].dirs;
      assert gs[i + 1] == gs[1..][i];
    }
  }

  /** The keys of the groups strictly increase. */
  predicate KeysIncrease(gs: seq<KeyGroup>)
  {
    forall i, j :: 0 <= i < j < |gs| ==> gs[i].key < gs[j].key
  }

  /** The groups of a sorted list come in strictly increasing key order. */
  lemma {:induction false} SortedGroupsIncrease(xs: seq<string>, key: string -> int)
    requires KeySorted(xs, key)
    ensures KeysIncrease(GroupByKey(xs, key))
    decreases |xs|
  {
    if |xs| > 1 {
      var tail := xs[1..];
      var rest := GroupByKey(tail, key);
      SortedTail(xs, key);
      SortedGroupsIncrease(tail, key);
      assert rest[0].key == key(tail[0]) && tail[0] == xs[1];
      assert key(xs[0]) <= rest[0].key;
      if rest[0].key == key(xs[0]) {
        KeysIncreaseNewHead(KeyGroup(rest[0].key, [xs[0]] + rest[0].dirs), rest[1..]);
      } else {
        KeysIncreaseNewHead(KeyGroup(key(xs[0]), [xs[0]]), rest);
      }
    }
  }

  /** A group whose key is below every key of increasing groups can go in front of them. */
  lemma KeysIncreaseNewHead(g: KeyGroup, gs: seq<KeyGroup>)
    requires KeysIncrease(gs) && (|gs| > 0 ==> g.key < gs[0].key)
    ensures KeysIncrease([g] + gs)
  {
    var r := [g] + gs;
    forall i, j | 0 <= i < j < |r|
      ensures r[i].key < r[j].key
    {
      assert r[j] == gs[j - 1];
      if i > 0 {
        assert r[i] == gs[i - 1];
      } else if j > 1 {
        assert gs[0].key < gs[j - 1].key;
      }
    }
  }

  /** Selecting one key distributes over concatenation. */
  lemma {:induction false} AtKeyAppend(a: seq<string>, b: seq<string>, key: string -> int, k: int)
    ensures AtKey(a + b, key, k) == AtKey(a, key, k) + AtKey(b, key, k)
    decreases |a|
  {
    if |a| == 0 {
      assert a + b == b;
    } else {
      var ab := a + b;
      assert ab[0] == a[0] && ab[1..] == a[1..] + b;
      AtKeyAppend(a[1..], b, key, k);
      var first := if key(a[0]) == k then [a[0]] else [];
      assert AtKey(ab, key, k) == first + AtKey(a[1..] + b, key, k);
      assert AtKey(a, key, k) == first + AtKey(a[1..], key, k);
      assert first + (AtKey(a[1..], key, k) + AtKey(b, key, k)) == (first + AtKey(a[1..], key, k)) + AtKey(b, key, k);
    }
  }

  /** A list all with one key is its own selection at that key. */
  lemma {:induction false} AtKeyAll(xs: seq<string>, key: string -> int, k: int)
    requires forall p :: p in xs ==> key(p) == k
    ensures AtKey(xs, key, k) == xs
    decreases |xs|
  {
    if |xs| > 0 {
      assert xs[0] in xs;
      assert forall p :: p in xs[1..] ==> p in xs;
      AtKeyAll(xs[1..], key, k);
      assert xs == [xs[0]] + xs[1..];
    }
  }

  /** A list with nothing at a key selects nothing there. */
  lemma {:induction false} AtKeyNone(xs: seq<string>, key: string -> int, k: int)
    requires forall p :: p in xs ==> key(p) != k
    ensures AtKey(xs, key, k) == []
    decreases |xs|
  {
    if |xs| > 0 {
      assert xs[0] in xs;
      assert forall p :: p in xs[1..] ==> p in xs;
      AtKeyNone(xs[1..], key, k);
    }
  }

  /** In groups of strictly increasing key, selecting a group's key from the flattened list gives that group. */
  lemma {:induction false} GroupIsKey(gs: seq<KeyGroup>, key: string -> int, i: nat)
    requires WellGrouped(gs, key) && KeysIncrease(gs) && i < |gs|
    ensures AtKey(Flatten(gs), key, gs[i].key) == gs[i].dirs
    decreases |gs|
  {
    var rest := gs[1..];
    assert forall a :: 0 <= a < |rest| ==> rest[a] == gs[a + 1];
    assert KeysIncrease(rest) && WellGrouped(rest, key);
    AtKeyAppend(gs[0].dirs, Flatten(rest), key, gs[i].key);
    if i == 0 {
      AtKeyAll(gs[0].dirs, key, gs[0].key);
      forall p | p in Flatten(rest)
        ensures key(p) != gs[0].key
      {
        FlattenFrom(rest, p);
        var a :| 0 <= a < |rest| && p in rest[a].dirs;
        assert key(p) == gs[a + 1].key;
      }
      AtKeyNone(Flatten(rest), key, gs[0].key);
    } else {
      AtKeyNone(gs[0].dirs, key, gs[i].key);
      GroupIsKey(rest, key, i - 1);
    }
  }

  /**
   * The order in which `process_transfer` queues the directories:
   * `groupby(sorted(dirs, key=group_levels, reverse=False), group_levels)`.
   * Every directory is queued once, in groups of one level each.
   */
  function LevelOrder(dirs: seq<string>): (gs: seq<KeyGroup>)
    ensures multiset(Flatten(gs)) == multiset(dirs)
    ensures WellGrouped(gs, GroupLevels)
  {
    GroupsAreRuns(SortByKey(dirs, GroupLevels), GroupLevels);
    GroupByKey(SortByKey(dirs, GroupLevels), GroupLevels)
  }

  /**
   * The groups go shallowest level first (not deepest first), and each holds
   * exactly the directories of its level, in discovery order.
   */
  lemma LevelOrderShallowestFirst(dirs: seq<string>)
    ensures KeysIncrease(LevelOrder(dirs))
    ensures forall i :: 0 <= i < |LevelOrder(dirs)| ==> LevelOrder(dirs)[i].dirs == AtKey(dirs, GroupLevels, LevelOrder(dirs)[i].key)
  {
    var sorted := SortByKey(dirs, GroupLevels);
    var gs := GroupByKey(sorted, GroupLevels);
    assert LevelOrder(dirs) == gs;
    GroupsAreRuns(sorted, GroupLevels);
    SortedGroupsIncrease(sorted, GroupLevels);
    forall i | 0 <= i < |gs|
      ensures gs[i].dirs == AtKey(dirs, GroupLevels, gs[i].key)
    {
      GroupIsKey(gs, GroupLevels, i);
      SortKeepsKeyOrder(dirs, GroupLevels, gs[i].key);
    }
  }

  /** What `copy_dir` does with a directory: it returns a result record, or it raises. */
  datatype CopyOutcome = Returned(result: CopyResult) | Raised

  /**
   * What `communicate()` gives back for one output stream: the captured text
   * when the subprocess was started with that stream piped, `None` when it
   * was not.
   */
  function Communicate(piped: bool, captured: string): Option<string>
  {
    if piped then Some(captured) else None
  }

  /**
   * `copy_dir`: the source path is trimmed with the same replace as the
   * synchronous runner, the shell runs the copy (the parameter `shell`, from
   * the trimmed source and the destination to the process outcome), and then
   * both streams from `communicate()` are decoded. Decoding `None` raises, so
   * the copy returns a record only when its streams were piped; `async.py`
   * starts the subprocess without piping them.
   */
  function CopyDir(piped: bool, shell: (string, string) -> CopyResult, root: string, from: string, to: string): (o: CopyOutcome)
    ensures o.Returned? <==> piped
    ensures o.Returned? ==> o.result == shell(TrimRootAsWritten(root, from), to)
  {
    var process := shell(TrimRootAsWritten(root, from), to);
    match (Communicate(piped, process.stdout), Communicate(piped, process.stderr))
    case (Some(out), Some(err)) => Returned(CopyResult(process.returnCode, out, err))
    case _ => Raised
  }

  /** `copy_dir` as the argument of `process_dir`, with or without piped streams. */
  function AsyncCopy(piped: bool, shell: (string, string) -> CopyResult): (string, string, string) -> CopyOutcome
  {
    (root: string, from: string, to: string) => CopyDir(piped, shell, root, from, to)
  }

  /**
   * `process_dir` of `async.py`: `completed` when the copy returns, whatever
   * its return code, and `errored` only when it raises. Returns the source
   * and the status.
   */
  function ProcessDirAsync(copy: (string, string, string) -> CopyOutcome, root: string, from: string, to: string): (r: (string, string))
    ensures r.0 == from
    ensures r.1 == "completed" <==> copy(root, from, to).Returned?
    ensures r.1 == "errored" <==> copy(root, from, to).Raised?
  {
    match copy(root, from, to)
    case Returned(_) => (from, "completed")
    case Raised => (from, "errored")
  }

  /**
   * As written, every directory is reported `errored`, even one whose copy
   * succeeded and which the synchronous runner reports `completed`.
   */
  lemma AsyncAlwaysErrors(shell: (string, string) -> CopyResult, root: string, from: string, to: string)
    ensures ProcessDirAsync(AsyncCopy(false, shell), root, from, to) == (from, "errored")
    ensures shell(TrimRootAsWritten(root, from), to).returnCode == 0 ==>
      ProcessDir(RsyncRunner(shell), root, from, to).0 == Completed
  {
    assert AsyncCopy(false, shell)(root, from, to) == CopyDir(false, shell, root, from, to);
  }

  /** With both streams piped, as the synchronous runner pipes them, every copy returns and is reported `completed`. */
  lemma PipedAsyncCompletes(shell: (string, string) -> CopyResult, root: string, from: string, to: string)
    ensures AsyncCopy(true, shell)(root, from, to) == Returned(shell(TrimRootAsWritten(root, from), to))
    ensures ProcessDirAsync(AsyncCopy(true, shell), root, from, to) == (from, "completed")
  {
    assert AsyncCopy(true, shell)(root, from, to) == CopyDir(true, shell, root, from, to);
  }

  /**
   * Even with piped streams the two variants disagree on a failed copy:
   * where rsync exits with a non-zero code, the synchronous runner reports
   * `errored` and the async `process_dir` reports `completed`.
   */
  lemma AsyncIgnoresReturnCode(shell: (string, string) -> CopyResult, root: string, from: string, to: string)
    requires shell(TrimRootAsWritten(root, from), to).returnCode != 0
    ensures ProcessDir(RsyncRunner(shell), root, from, to).0 == Errored
    ensures ProcessDirAsync(AsyncCopy(true, shell), root, from, to).1 == "completed"
  {
    PipedAsyncCompletes(shell, root, from, to);
  }
}
