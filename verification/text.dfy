/**
 * Python string operations the program relies on, over `string` (= `seq<char>`):
 * `str.find`, `str.split(sep)`, `str.replace`, `file.readlines()`, `str.rstrip`
 * and an ASCII `str.lower`.
 */
module Text {
  import opened Results

  /** The first position of `c` in `s`, like `s.find(c)` (None for -1). */
  function IndexOf(s: string, c: char): (r: Option<nat>)
    ensures r.None? ==> c !in s
    ensures r.Some? ==> r.value < |s| && s[r.value] == c && c !in s[..r.value]
  {
    if |s| == 0 then None
    else if s[0] == c then Some(0)
    else match IndexOf(s[1..], c)
      case None => None
      case Some(i) =>
        assert s[..i + 1] == [s[0]] + s[1..][..i];
        Some(i + 1)
  }

  /** A position holding `c` with no earlier `c` is the one `IndexOf` finds. */
  lemma FirstIndex(s: string, c: char, i: nat)
    requires i < |s| && s[i] == c && c !in s[..i]
    ensures IndexOf(s, c) == Some(i)
  {
    assert forall j :: 0 <= j < i ==> s[..i][j] == s[j];
    assert forall j :: i < j <= |s| ==> s[..j][i] == c;
  }

  /** The last position of `c` in `s`, like `s.rfind(c)` (None for -1). */
  function LastIndexOf(s: string, c: char): (r: Option<nat>)
    ensures r.None? ==> c !in s
    ensures r.Some? ==> r.value < |s| && s[r.value] == c
    ensures r.Some? ==> forall k :: r.value < k < |s| ==> s[k] != c
  {
    if |s| == 0 then None
    else if s[|s| - 1] == c then Some(|s| - 1)
    else
      var r := LastIndexOf(s[..|s| - 1], c);
      assert forall k :: 0 <= k < |s| - 1 ==> s[k] == s[..|s| - 1][k];
      r
  }

  /** A position holding `c` with no later `c` is the one `LastIndexOf` finds. */
  lemma LastIndex(s: string, c: char, i: nat)
    requires i < |s| && s[i] == c && c !in s[i + 1..]
    ensures LastIndexOf(s, c) == Some(i)
  {
    assert forall j :: i < j < |s| ==> s[i + 1..][j - i - 1] == s[j];
  }

  /** `pat` starts at position `i` of `s`. */
  predicate OccursAt(s: string, pat: string, i: nat)
  {
    i + |pat| <= |s| && s[i..i + |pat|] == pat
  }

  /** `pat in s` in Python; the empty string occurs in every string. */
  predicate Occurs(s: string, pat: string)
  {
    exists i :: 0 <= i <= |s| && OccursAt(s, pat, i)
  }

  /**
   * Python's `s.replace(pat, rep)`: every non-overlapping occurrence of `pat`,
   * scanning left to right, becomes `rep`. An empty `pat` inserts `rep` before
   * every character and at the end (`'ab'.replace('', 'X') == 'XaXbX'`).
   */
  function ReplaceAll(s: string, pat: string, rep: string): string
    decreases |s|
  {
    if |pat| == 0 then
      if |s| == 0 then rep else rep + [s[0]] + ReplaceAll(s[1..], pat, rep)
    else if |s| < |pat| then s
    else if s[..|pat|] == pat then rep + ReplaceAll(s[|pat|..], pat, rep)
    else [s[0]] + ReplaceAll(s[1..], pat, rep)
  }

  /** A string with no occurrence of `pat` comes back from `replace` unchanged. */
  lemma {:induction false} ReplaceAbsent(s: string, pat: string, rep: string)
    requires !Occurs(s, pat)
    ensures ReplaceAll(s, pat, rep) == s
    decreases |s|
  {
    if |pat| == 0 {
      assert OccursAt(s, pat, 0);
    } else if |s| < |pat| {
    } else {
      assert !OccursAt(s, pat, 0);
      forall i | 0 <= i <= |s[1..]| && OccursAt(s[1..], pat, i)
        ensures false
      {
        assert s[1..][i..i + |pat|] == s[i + 1..i + 1 + |pat|];
        assert OccursAt(s, pat, i + 1);
      }
      ReplaceAbsent(s[1..], pat, rep);
    }
  }

  /** Replacing a string by itself changes nothing. */
  lemma {:induction false} ReplaceIdentity(s: string, pat: string)
    ensures ReplaceAll(s, pat, pat) == s
    decreases |s|
  {
    if |pat| == 0 {
      if |s| > 0 {
        ReplaceIdentity(s[1..], pat);
        assert s == [s[0]] + s[1..];
      }
    } else if |s| < |pat| {
    } else if s[..|pat|] == pat {
      ReplaceIdentity(s[|pat|..], pat);
      assert s == s[..|pat|] + s[|pat|..];
    } else {
      ReplaceIdentity(s[1..], pat);
      assert s == [s[0]] + s[1..];
    }
  }

  /** A non-empty `pat` at the very front is replaced, and the scan resumes after it. */
  lemma ReplaceLeading(pat: string, rest: string, rep: string)
    requires |pat| > 0
    ensures ReplaceAll(pat + rest, pat, rep) == rep + ReplaceAll(rest, pat, rep)
  {
    assert (pat + rest)[..|pat|] == pat;
    assert (pat + rest)[|pat|..] == rest;
  }

  /** Python's `s.split(c)`: the pieces between the occurrences of `c`. */
  function Split(s: string, c: char): (r: seq<string>)
    ensures |r| >= 1
    decreases |s|
  {
    match IndexOf(s, c)
    case None => [s]
    case Some(i) => [s[..i]] + Split(s[i + 1..], c)
  }

  /** Python's `c.join(fields)`, for a non-empty list of fields. */
  function JoinWith(fields: seq<string>, c: char): string
    requires |fields| >= 1
  {
    if |fields| == 1 then fields[0] else fields[0] + [c] + JoinWith(fields[1..], c)
  }

  /** Every piece `split` returns is free of the separator. */
  lemma {:induction false} SplitPiecesFree(s: string, c: char)
    ensures forall k :: 0 <= k < |Split(s, c)| ==> c !in Split(s, c)[k]
    decreases |s|
  {
    match IndexOf(s, c)
    case None =>
    case Some(i) =>
      SplitPiecesFree(s[i + 1..], c);
  }

  /** Joining the pieces of a split with the same separator restores the string. */
  lemma {:induction false} JoinSplit(s: string, c: char)
    ensures JoinWith(Split(s, c), c) == s
    decreases |s|
  {
    match IndexOf(s, c)
    case None =>
    case Some(i) =>
      var head, rest := s[..i], s[i + 1..];
      assert Split(s, c) == [head] + Split(rest, c);
      assert JoinWith(Split(s, c), c) == head + [c] + rest by {
        JoinCons(head, Split(rest, c), c);
        JoinSplit(rest, c);
      }
      assert s == head + [c] + rest;
  }

  /** Joining a list with a head: the head, the separator, then the rest joined. */
  lemma JoinCons(x: string, xs: seq<string>, c: char)
    requires |xs| >= 1
    ensures JoinWith([x] + xs, c) == x + [c] + JoinWith(xs, c)
  {
    assert ([x] + xs)[1..] == xs;
  }

  /** Splitting fields joined by a separator they do not contain gives the fields back. */
  lemma {:induction false} SplitJoin(fields: seq<string>, c: char)
    requires |fields| >= 1
    requires forall k :: 0 <= k < |fields| ==> c !in fields[k]
    ensures Split(JoinWith(fields, c), c) == fields
    decreases |fields|
  {
    var s := JoinWith(fields, c);
    if |fields| == 1 {
      assert IndexOf(s, c).None?;
    } else {
      var f := fields[0];
      var rest := JoinWith(fields[1..], c);
      assert s == f + [c] + rest;
      assert s[|f|] == c;
      assert s[..|f|] == f;
      FirstIndex(s, c, |f|);
      assert s[|f| + 1..] == rest;
      SplitJoin(fields[1..], c);
    }
  }

  /** `Split(a + [c] + b)` is the split of `a` followed by the split of `b`. */
  lemma {:induction false} SplitAround(a: string, c: char, b: string)
    ensures Split(a + [c] + b, c) == Split(a, c) + Split(b, c)
    decreases |a|
  {
    var s := a + [c] + b;
    match IndexOf(a, c)
    case None =>
      assert s[..|a|] == a;
      FirstIndex(s, c, |a|);
      assert s[|a| + 1..] == b;
    case Some(i) =>
      assert s[..i] == a[..i];
      FirstIndex(s, c, i);
      assert s[i + 1..] == a[i + 1..] + [c] + b;
      SplitAround(a[i + 1..], c, b);
  }

  /** The concatenation of a list of strings. */
  function Concat(parts: seq<string>): string
  {
    if |parts| == 0 then "" else parts[0] + Concat(parts[1..])
  }

  /** Concatenating a list with a head: the head, then the rest. */
  lemma ConcatCons(x: string, xs: seq<string>)
    ensures Concat([x] + xs) == x + Concat(xs)
  {
    assert ([x] + xs)[1..] == xs;
  }

  /**
   * Python's `f.readlines()` on a file whose content is `s`: each line keeps
   * its terminating newline, and a final line without one is kept when it is
   * not empty.
   */
  function Lines(s: string): seq<string>
    decreases |s|
  {
    if |s| == 0 then []
    else match IndexOf(s, '\n')
      case None => [s]
      case Some(i) => [s[..i + 1]] + Lines(s[i + 1..])
  }

  /** A complete line: newline-terminated, with no other newline in it. */
  predicate IsLine(line: string)
  {
    |line| >= 1 && line[|line| - 1] == '\n' && '\n' !in line[..|line| - 1]
  }

  /** Reading the lines back and concatenating them restores the content. */
  lemma {:induction false} LinesConcat(s: string)
    ensures Concat(Lines(s)) == s
    decreases |s|
  {
    if |s| > 0 {
      match IndexOf(s, '\n')
      case None =>
        ConcatCons(s, []);
      case Some(i) =>
        var line, rest := s[..i + 1], s[i + 1..];
        assert Lines(s) == [line] + Lines(rest) by {
          LinesAt(s, i);
        }
        assert Concat([line] + Lines(rest)) == line + rest by {
          ConcatCons(line, Lines(rest));
          LinesConcat(rest);
        }
        assert s == line + rest;
    }
  }

  /** Content made of complete lines reads back as exactly those lines. */
  lemma {:induction false} LinesOfConcat(lines: seq<string>)
    requires forall k :: 0 <= k < |lines| ==> IsLine(lines[k])
    ensures Lines(Concat(lines)) == lines
    decreases |lines|
  {
    if |lines| > 0 {
      var l := lines[0];
      var rest := Concat(lines[1..]);
      var s := l + rest;
      assert s[..|l|] == l;
      assert s[..|l| - 1] == l[..|l| - 1];
      FirstIndex(s, '\n', |l| - 1);
      assert s[|l|..] == rest;
      LinesOfConcat(lines[1..]);
    }
  }

  /** Reading content that ends at a line boundary, followed by more lines. */
  lemma {:induction false} LinesAppend(a: string, b: string)
    requires |a| == 0 || a[|a| - 1] == '\n'
    ensures Lines(a + b) == Lines(a) + Lines(b)
    decreases |a|
  {
    if |a| == 0 {
      assert a + b == b;
    } else {
      assert a[|a| - 1] in a;
      var i := IndexOf(a, '\n').value;
      var rest := a[i + 1..];
      assert |rest| == 0 || rest[|rest| - 1] == '\n' by {
        if |rest| > 0 {
          assert rest[|rest| - 1] == a[|a| - 1];
        }
      }
      LinesAppend(rest, b);
      LinesAppendStep(a, b, i);
    }
  }

  /** The step of `LinesAppend`: the first line of `a` comes first, then the rest is read on. */
  lemma LinesAppendStep(a: string, b: string, i: nat)
    requires IndexOf(a, '\n') == Some(i)
    requires Lines(a[i + 1..] + b) == Lines(a[i + 1..]) + Lines(b)
    ensures Lines(a + b) == Lines(a) + Lines(b)
  {
    var line, rest := a[..i + 1], a[i + 1..];
    assert Lines(a + b) == [line] + Lines(rest + b) by {
      FirstNewlineOfAppend(a, b, i);
      LinesAt(a + b, i);
    }
    assert Lines(a) == [line] + Lines(rest) by {
      LinesAt(a, i);
    }
    ConsThenAppend(Lines(a + b), Lines(a), Lines(rest + b), Lines(rest), Lines(b), line);
  }

  /** A list that is `x` then `ys + zs`, beside `[x] + ys`, is that list then `zs`. */
  lemma ConsThenAppend(whole: seq<string>, front: seq<string>, tail: seq<string>, ys: seq<string>, zs: seq<string>, x: string)
    requires whole == [x] + tail && tail == ys + zs && front == [x] + ys
    ensures whole == front + zs
  {
  }

  /** The first newline of `a` is the first newline of `a + b`. */
  lemma FirstNewlineOfAppend(a: string, b: string, i: nat)
    requires IndexOf(a, '\n') == Some(i)
    ensures IndexOf(a + b, '\n') == Some(i)
    ensures (a + b)[..i + 1] == a[..i + 1] && (a + b)[i + 1..] == a[i + 1..] + b
  {
    var s := a + b;
    assert s[..i + 1] == a[..i + 1];
    assert s[..i] == a[..i];
    FirstIndex(s, '\n', i);
  }

  /** Where the first newline is at `i`, the first line ends there. */
  lemma LinesAt(s: string, i: nat)
    requires IndexOf(s, '\n') == Some(i)
    ensures Lines(s) == [s[..i + 1]] + Lines(s[i + 1..])
  {
  }

  /** Python's `s.rstrip(c)` for a single character. */
  function RStrip(s: string, c: char): (r: string)
    ensures |r| <= |s| && r == s[..|r|]
    ensures |r| == 0 || r[|r| - 1] != c
    ensures forall k :: |r| <= k < |s| ==> s[k] == c
  {
    if |s| == 0 || s[|s| - 1] != c then s else RStrip(s[..|s| - 1], c)
  }

  /** ASCII `c.lower()`. */
  function LowerChar(c: char): char
  {
    if 'A' <= c <= 'Z' then (c as int + 32) as char else c
  }

  /** ASCII `s.lower()`. */
  function Lower(s: string): string
  {
    seq(|s|, i requires 0 <= i < |s| => LowerChar(s[i]))
  }

  /** Lower-casing twice is lower-casing once. */
  lemma LowerIdempotent(s: string)
    ensures Lower(Lower(s)) == Lower(s)
  {
  }
}
