/**
 * The copy strategies of `copyrunner.py`. The external `rsync` process is a
 * parameter of the rsync runner: a function from the source argument and the
 * destination to the process outcome.
 */
module Runners {
  import opened Text
  import opened TaskStore

  /** What `__copy_dir_sync` returns: the process's return code and its captured output. */
  datatype CopyResult = CopyResult(returnCode: int, stdout: string, stderr: string)

  /** The second component a runner returns: the copy result, or the no-op runner's echo of the source. */
  datatype Detail = Copied(result: CopyResult) | Echoed(source: string)

  /** The two strategies behind `AbstractRunner.process_dir`. */
  datatype Runner = RsyncRunner(rsync: (string, string) -> CopyResult) | NullRunner

  /**
   * The root trim as written in `__copy_dir_sync`:
   * `from_dir.replace(root_dir, root_dir + '/.')`, which rewrites every
   * occurrence of the root, not only the leading one.
   */
  function TrimRootAsWritten(root: string, from: string): string
  {
    ReplaceAll(from, root, root + "/.")
  }

  /** `root` is a prefix of `p`. */
  predicate HasPrefix(p: string, root: string)
  {
    |root| <= |p| && p[..|root|] == root
  }

  /**
   * The root trim as intended: the `/.` marker that tells `rsync -R` where
   * the relative part begins is put right after the leading root, and
   * nowhere else.
   */
  function TrimRoot(root: string, from: string): string
  {
    if HasPrefix(from, root) then root + "/." + from[|root|..] else from
  }

  /** Removing the marker again: the inverse of the intended trim. */
  function Untrim(root: string, p: string): string
  {
    if HasPrefix(p, root + "/.") then root + p[|root| + 2..] else p
  }

  /** The intended trim loses nothing: removing the marker gives the source path back. */
  lemma TrimRootRoundTrip(root: string, from: string)
    ensures Untrim(root, TrimRoot(root, from)) == from
  {
    if HasPrefix(from, root) {
      var t := root + "/." + from[|root|..];
      assert t[..|root| + 2] == root + "/.";
      assert t[|root| + 2..] == from[|root|..];
      assert from == root + from[|root|..];
    } else {
      assert !HasPrefix(from, root + "/.") by {
        if |root| + 2 <= |from| {
          assert from[..|root| + 2][..|root|] == from[..|root|];
        }
      }
    }
  }

  /**
   * When the root is a prefix of the source path and does not occur again in
   * the rest, the trim as written puts the marker right after the root, as
   * intended.
   */
  lemma TrimAsWrittenAgrees(root: string, suffix: string)
    requires !Occurs(suffix, root)
    ensures TrimRootAsWritten(root, root + suffix) == root + "/." + suffix
    ensures TrimRootAsWritten(root, root + suffix) == TrimRoot(root, root + suffix)
  {
    assert |root| > 0 by {
      if |root| == 0 {
        assert OccursAt(suffix, root, 0);
      }
    }
    ReplaceLeading(root, suffix, root + "/.");
    ReplaceAbsent(suffix, root, root + "/.");
    assert (root + suffix)[..|root|] == root;
    assert (root + suffix)[|root|..] == suffix;
  }

  /**
   * A source path in which the root name recurs inside a child name:
   * `/data/data2` under root `/data` becomes `/data/./data/.2` (a path that
   * does not exist) instead of `/data/./data2`.
   */
  lemma TrimRootRewritesInnerOccurrence()
    ensures TrimRootAsWritten("/data", "/data/data2") == "/data/./data/.2"
    ensures TrimRoot("/data", "/data/data2") == "/data/./data2"
  {
    var pat := "/data";
    var rep := "/data/.";
    assert "2"[..0] == "";
    assert ReplaceAll("2", pat, rep) == "2";
    assert "/data2"[..5] == pat;
    assert "/data2"[5..] == "2";
    assert ReplaceAll("/data2", pat, rep) == rep + "2";
    assert "/data/data2"[..5] == pat;
    assert "/data/data2"[5..] == "/data2";
    assert "/data/data2"[..5] == "/data";
  }

  /**
   * `process_dir` of the chosen runner. The rsync runner hands rsync the
   * source path trimmed as `__copy_dir_sync` writes it, reports `completed`
   * exactly when the process returned 0 and `errored` otherwise, and hands
   * back the copy result unchanged; the null runner reports `no-op` and
   * echoes the source. No runner ever reports `discovered` or `progress`.
   */
  function ProcessDir(runner: Runner, root: string, from: string, to: string): (r: (Status, Detail))
    ensures runner.NullRunner? ==> r == (NoOp, Echoed(from))
    ensures runner.RsyncRunner? ==> r.1 == Copied(runner.rsync(TrimRootAsWritten(root, from), to))
    ensures runner.RsyncRunner? ==> (r.0 == Completed <==> r.1.result.returnCode == 0)
    ensures runner.RsyncRunner? ==> (r.0 == Errored <==> r.1.result.returnCode != 0)
    ensures r.0 != Discovered && r.0 != Progress
  {
    match runner
    case NullRunner => (NoOp, Echoed(from))
    case RsyncRunner(rsync) =>
      var result := rsync(TrimRootAsWritten(root, from), to);
      (if result.returnCode == 0 then Completed else Errored, Copied(result))
  }

  /**
   * Where the root occurs in the source path only as its prefix, the runner
   * hands rsync the intended path, marker right after the root, and its
   * status follows that copy's return code.
   */
  lemma ProcessDirTrimsOnce(runner: Runner, root: string, suffix: string, to: string)
    requires runner.RsyncRunner? && !Occurs(suffix, root)
    ensures ProcessDir(runner, root, root + suffix, to).1 == Copied(runner.rsync(TrimRoot(root, root + suffix), to))
    ensures ProcessDir(runner, root, root + suffix, to).0 == Completed <==>
      runner.rsync(root + "/." + suffix, to).returnCode == 0
  {
    TrimAsWrittenAgrees(root, suffix);
  }

  /**
   * Where the root name recurs inside a child name, rsync is handed the
   * doubly marked path: the copy of `/data/data2` under `/data` runs on
   * `/data/./data/.2`, and its status is that copy's.
   */
  lemma ProcessDirRewritesInnerOccurrence(rsync: (string, string) -> CopyResult, to: string)
    ensures ProcessDir(RsyncRunner(rsync), "/data", "/data/data2", to).1 == Copied(rsync("/data/./data/.2", to))
    ensures ProcessDir(RsyncRunner(rsync), "/data", "/data/data2", to).0 == Completed <==>
      rsync("/data/./data/.2", to).returnCode == 0
  {
    TrimRootRewritesInnerOccurrence();
  }
}
