/**
 * POSIX path helpers as Python computes them: `os.path.join`, `os.path.dirname`
 * and the number of parts of a `pathlib.PurePosixPath`.
 */
module Paths {
  import opened Results
  import opened Text

  /** Every character is a slash (vacuously true of the empty string). */
  predicate AllSlashes(p: string)
  {
    forall k :: 0 <= k < |p| ==> p[k] == '/'
  }

  /** A name `os.listdir` can return: non-empty, slash-free, neither `.` nor `..`. */
  predicate IsEntryName(n: string)
  {
    |n| > 0 && '/' !in n && n != "." && n != ".."
  }

  /** `os.path.join(a, b)`: an absolute `b` wins, otherwise one slash separates them. */
  function Join(a: string, b: string): string
  {
    if |b| > 0 && b[0] == '/' then b
    else if |a| == 0 || a[|a| - 1] == '/' then a + b
    else a + "/" + b
  }

  /**
   * `os.path.dirname(p)`: the text up to and including the last slash, with
   * the trailing slashes removed unless that text consists only of slashes.
   */
  function Dirname(p: string): string
  {
    var head := match LastIndexOf(p, '/')
      case None => ""
      case Some(i) => p[..i + 1];
    if |head| > 0 && !AllSlashes(head) then RStrip(head, '/') else head
  }

  /**
   * The parent of a joined entry is the directory it was joined to, provided
   * that directory is not written with a trailing slash (a path made only of
   * slashes, such as `/`, is fine).
   */
  lemma DirnameOfJoin(p: string, n: string)
    requires IsEntryName(n)
    requires |p| == 0 || p[|p| - 1] != '/' || AllSlashes(p)
    ensures Dirname(Join(p, n)) == p
  {
    if |p| == 0 {
      assert Join(p, n) == n;
    } else if p[|p| - 1] == '/' {
      DirnameAfterSlashes(p, n);
    } else {
      DirnameAfterName(p, n);
    }
  }

  lemma DirnameAfterSlashes(p: string, n: string)
    requires |p| > 0 && AllSlashes(p) && '/' !in n
    ensures Dirname(p + n) == p
  {
    var j := p + n;
    assert j[..|p|] == p;
    assert j[|p|..] == n;
    LastIndex(j, '/', |p| - 1);
  }

  lemma DirnameAfterName(p: string, n: string)
    requires |p| > 0 && p[|p| - 1] != '/' && '/' !in n
    ensures Dirname(p + "/" + n) == p
  {
    var j := p + "/" + n;
    assert j[..|p|] == p;
    assert j[|p| + 1..] == n;
    LastIndex(j, '/', |p|);
    var head := j[..|p| + 1];
    assert head == p + "/";
    assert head[|p| - 1] != '/';
    assert head[|p|] == '/';
    var s := RStrip(head, '/');
    assert |s| == |p|;
  }

  /**
   * `dirname` returns `p` itself exactly when `p` is made only of slashes
   * (`''`, `'/'`, `'//'`); for every other path it returns something shorter.
   */
  lemma DirnameShorter(p: string)
    ensures Dirname(p) == p <==> AllSlashes(p)
    ensures !AllSlashes(p) ==> |Dirname(p)| < |p|
  {
    match LastIndexOf(p, '/')
    case None =>
      if |p| > 0 {
        assert p[0] != '/';
      }
    case Some(i) =>
      var head := p[..i + 1];
      if |head| > 0 && !AllSlashes(head) {
        var s := RStrip(head, '/');
        if i + 1 == |p| {
          assert head == p;
          assert |s| < |head|;
        }
        assert forall k :: 0 <= k < |head| ==> head[k] == p[k];
      } else {
        if i + 1 < |p| {
          assert p[|p| - 1] == p[i + 1..][|p| - i - 2];
        } else {
          assert head == p;
        }
      }
  }

  /** How many of the slash-separated pieces name a path component (not `''` or `.`). */
  function NamedPieces(pieces: seq<string>): nat
  {
    if |pieces| == 0 then 0
    else (if pieces[0] != "" && pieces[0] != "." then 1 else 0) + NamedPieces(pieces[1..])
  }

  lemma {:induction false} NamedPiecesAppend(a: seq<string>, b: seq<string>)
    ensures NamedPieces(a + b) == NamedPieces(a) + NamedPieces(b)
    decreases |a|
  {
    if |a| == 0 {
      assert a + b == b;
    } else {
      assert (a + b)[1..] == a[1..] + b;
      NamedPiecesAppend(a[1..], b);
    }
  }

  /**
   * `len(PurePosixPath(p).parts) - 1`, the key `group_levels` sorts by: the
   * root (one or two leading slashes) is one part, every other non-empty
   * component except `.` is another. `''` has no parts and so level -1.
   */
  function GroupLevels(p: string): int
  {
    (if |p| > 0 && p[0] == '/' then 1 else 0) + NamedPieces(Split(p, '/')) - 1
  }

  /** A piece that has no separator splits into itself. */
  lemma SplitWhole(n: string, c: char)
    requires c !in n
    ensures Split(n, c) == [n]
  {
  }

  /** Joining an entry name onto a directory puts it exactly one level deeper. */
  lemma LevelOfJoin(p: string, n: string)
    requires IsEntryName(n)
    ensures GroupLevels(Join(p, n)) == GroupLevels(p) + 1
  {
    PiecesOfName(n);
    if |p| == 0 {
      assert Join(p, n) == n;
      PiecesOfName(p);
    } else if p[|p| - 1] == '/' {
      var q := p[..|p| - 1];
      assert NamedPieces(Split(p, '/')) == NamedPieces(Split(q, '/')) by {
        assert p == q + ['/'] + "";
        PiecesOfName("");
        PiecesAround(q, "");
      }
      assert NamedPieces(Split(Join(p, n), '/')) == NamedPieces(Split(q, '/')) + 1 by {
        assert Join(p, n) == q + ['/'] + n;
        PiecesAround(q, n);
      }
      assert Join(p, n)[0] == p[0];
    } else {
      assert NamedPieces(Split(Join(p, n), '/')) == NamedPieces(Split(p, '/')) + 1 by {
        assert Join(p, n) == p + ['/'] + n;
        PiecesAround(p, n);
      }
      assert Join(p, n)[0] == p[0];
    }
  }

  /** A slash-free piece is one named piece, unless it is `''` or `.`. */
  lemma PiecesOfName(n: string)
    requires '/' !in n
    ensures NamedPieces(Split(n, '/')) == if n != "" && n != "." then 1 else 0
  {
    SplitWhole(n, '/');
  }

  /** The named pieces on both sides of a slash add up. */
  lemma PiecesAround(a: string, b: string)
    ensures NamedPieces(Split(a + ['/'] + b, '/')) == NamedPieces(Split(a, '/')) + NamedPieces(Split(b, '/'))
  {
    SplitAround(a, '/', b);
    NamedPiecesAppend(Split(a, '/'), Split(b, '/'));
  }
}
