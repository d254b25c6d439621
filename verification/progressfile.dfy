/**
 * The `found_dirs.csv` progress file of `async.py`, its content held as one
 * string: one `source,target,status` line per discovered directory, read
 * back with `readlines` and `split(',')`, extended with the newly found
 * directories, and rewritten with the statuses at the end of a run.
 */
module ProgressFile {
  import opened Results
  import opened Text

  /** `DirectoryResult`: one line of the progress file. */
  datatype DirectoryResult = DirectoryResult(source: string, target: string, status: string)

  /** The message of the `IndexError` a line with fewer than three fields raises. */
  const IndexError := "list index out of range"

  /**
   * A field the file format can carry: no separator and no line break in it.
   * The file is read with universal newlines, so a carriage return ends a
   * line as well.
   */
  predicate Plain(s: string)
  {
    ',' !in s && '\n' !in s && '\r' !in s
  }

  /** The line `persist_dirs` and `persist_results` write for a directory. */
  function FormatLine(source: string, target: string, status: string): string
  {
    source + [','] + target + [','] + status + ['\n']
  }

  /** `load_dirs` on one line: fields 0 and 1, and field 2 without its newlines, lower-cased. */
  function ParseLine(line: string): (r: Result<DirectoryResult, string>)
    ensures r.Ok? <==> |Split(line, ',')| >= 3
    ensures r.Err? ==> r.error == IndexError
    ensures r.Ok? ==> ',' !in r.value.source && ',' !in r.value.target
    ensures r.Ok? ==>
      var head := r.value.source + [','] + r.value.target + [','];
      |head| <= |line| && line[..|head|] == head
    ensures r.Ok? ==> Lower(r.value.status) == r.value.status
    ensures r.Ok? ==> r.value.status == Lower(RStrip(Split(line, ',')[2], '\n'))
  {
    var f := Split(line, ',');
    if |f| < 3 then Err(IndexError)
    else
      SplitPiecesFree(line, ',');
      JoinSplit(line, ',');
      assert line == f[0] + [','] + f[1] + [','] + JoinWith(f[2..], ',');
      LowerIdempotent(RStrip(f[2], '\n'));
      Ok(DirectoryResult(f[0], f[1], Lower(RStrip(f[2], '\n'))))
  }

  /** A written line is a complete line of the file. */
  lemma FormatIsLine(source: string, target: string, status: string)
    requires Plain(source) && Plain(target) && Plain(status)
    ensures IsLine(FormatLine(source, target, status))
  {
    var line := FormatLine(source, target, status);
    assert line[..|line| - 1] == source + [','] + target + [','] + status;
  }

  /** A written line reads back as the result it was written from, its status lower-cased. */
  lemma ParseFormat(source: string, target: string, status: string)
    requires Plain(source) && Plain(target) && Plain(status)
    ensures ParseLine(FormatLine(source, target, status)) == Ok(DirectoryResult(source, target, Lower(status)))
  {
    FormatSplit(source, target, status);
    StripNewline(status);
  }

  /** Stripping the newline from a newline-free status gives the status back. */
  lemma StripNewline(status: string)
    requires '\n' !in status
    ensures RStrip(status + ['\n'], '\n') == status
  {
    assert (status + ['\n'])[..|status|] == status;
  }

  /** `load_dirs`' list comprehension over the lines: the first bad line raises. */
  function ParseAll(lines: seq<string>): (r: Result<seq<DirectoryResult>, string>)
    ensures r.Ok? <==> forall k :: 0 <= k < |lines| ==> ParseLine(lines[k]).Ok?
    ensures r.Ok? ==> |r.value| == |lines| && forall k :: 0 <= k < |lines| ==> ParseLine(lines[k]) == Ok(r.value[k])
    ensures r.Err? ==> r.error == IndexError
  {
    if |lines| == 0 then Ok([])
    else
      var rest := lines[1..];
      assert forall k :: 1 <= k < |lines| ==> lines[k] == rest[k - 1];
      match ParseLine(lines[0])
      case Err(e) => Err(e)
      case Ok(d) =>
        match ParseAll(rest)
        case Err(e) => Err(e)
        case Ok(ds) =>
          var r := [d] + ds;
          assert forall k :: 1 <= k < |lines| ==> r[k] == ds[k - 1];
          Ok(r)
  }

  /** `load_dirs`: every line of the file parsed. */
  function LoadDirs(content: string): Result<seq<DirectoryResult>, string>
  {
    ParseAll(Lines(content))
  }

  /** The sources of the parsed lines, in file order (`existing_paths`). */
  function Sources(rs: seq<DirectoryResult>): (ps: seq<string>)
    ensures |ps| == |rs| && forall k :: 0 <= k < |rs| ==> ps[k] == rs[k].source
  {
    seq(|rs|, k requires 0 <= k < |rs| => rs[k].source)
  }

  /** `new_dirs`: the given paths, in order, that are not among the existing sources. */
  function NewDirs(dirs: seq<string>, existing: seq<string>): (r: seq<string>)
    ensures forall p :: p in r <==> p in dirs && p !in existing
    ensures |r| <= |dirs|
  {
    if |dirs| == 0 then []
    else
      assert forall p :: p in dirs <==> p == dirs[0] || p in dirs[1..];
      (if dirs[0] in existing then [] else [dirs[0]]) + NewDirs(dirs[1..], existing)
  }

  /** The `discovered` lines written for a list of new paths. */
  function DiscoveredLines(paths: seq<string>, target: string): (lines: seq<string>)
    ensures |lines| == |paths|
  {
    seq(|paths|, k requires 0 <= k < |paths| => FormatLine(paths[k], target, "discovered"))
  }

  /** The results those lines read back as. */
  function Discovered(paths: seq<string>, target: string): (rs: seq<DirectoryResult>)
    ensures Sources(rs) == paths
    ensures forall k :: 0 <= k < |rs| ==> rs[k].target == target && rs[k].status == "discovered"
  {
    seq(|paths|, k requires 0 <= k < |paths| => DirectoryResult(paths[k], target, "discovered"))
  }

  /**
   * `persist_dirs`: read the file (failing as `load_dirs` fails), then
   * append a `discovered` line for each path that is not already the source
   * of some line, whatever that line's target or status. The content
   * already there is kept as it is.
   */
  function PersistDirs(content: string, dirs: seq<string>, copyTo: string): (r: Result<string, string>)
    ensures r.Err? <==> LoadDirs(content).Err?
    ensures r.Ok? ==> |content| <= |r.value| && r.value[..|content|] == content
  {
    match LoadDirs(content)
    case Err(e) => Err(e)
    case Ok(existing) =>
      var added := content + Concat(DiscoveredLines(NewDirs(dirs, Sources(existing)), copyTo));
      assert added[..|content|] == content;
      Ok(added)
  }

  /** The file content ends at a line boundary. */
  predicate EndsLine(content: string)
  {
    |content| == 0 || content[|content| - 1] == '\n'
  }

  /** Reading a file made of two parts of lines reads both parts in turn. */
  lemma ParseAllAppend(a: seq<string>, b: seq<string>)
    requires ParseAll(a).Ok? && ParseAll(b).Ok?
    ensures ParseAll(a + b) == Ok(ParseAll(a).value + ParseAll(b).value)
  {
    var va, vb := ParseAll(a).value, ParseAll(b).value;
    forall k | 0 <= k < |a + b|
      ensures ParseLine((a + b)[k]) == Ok((va + vb)[k])
    {
      if k < |a| {
        assert (a + b)[k] == a[k];
      } else {
        assert (a + b)[k] == b[k - |a|];
      }
    }
    var r := ParseAll(a + b);
    assert r.Ok?;
    assert forall k :: 0 <= k < |a + b| ==> r.value[k] == (va + vb)[k];
    assert r.value == va + vb;
  }

  /** The statuses the program writes are already in lower case. */
  lemma LowerDiscovered()
    ensures Lower("discovered") == "discovered"
  {
  }

  /** One `discovered` line reads back as its `discovered` result. */
  lemma ParseDiscoveredLine(path: string, target: string)
    requires Plain(path) && Plain(target)
    ensures IsLine(FormatLine(path, target, "discovered"))
    ensures ParseLine(FormatLine(path, target, "discovered")) == Ok(DirectoryResult(path, target, "discovered"))
  {
    LowerDiscovered();
    FormatIsLine(path, target, "discovered");
    ParseFormat(path, target, "discovered");
  }

  /** The `discovered` lines read back as `discovered` results. */
  lemma ParseDiscovered(paths: seq<string>, target: string)
    requires Plain(target) && forall p :: p in paths ==> Plain(p)
    ensures forall k :: 0 <= k < |paths| ==> IsLine(DiscoveredLines(paths, target)[k])
    ensures ParseAll(DiscoveredLines(paths, target)) == Ok(Discovered(paths, target))
  {
    var lines := DiscoveredLines(paths, target);
    var rs := Discovered(paths, target);
    forall k | 0 <= k < |paths|
      ensures IsLine(lines[k]) && ParseLine(lines[k]) == Ok(rs[k])
    {
      assert paths[k] in paths;
      ParseDiscoveredLine(paths[k], target);
    }
    var r := ParseAll(lines);
    assert r.Ok?;
    assert forall k :: 0 <= k < |paths| ==> r.value[k] == rs[k];
    assert r.value == rs;
  }

  /**
   * The file `persist_dirs` leaves reads back as the old results followed by
   * one `discovered` result per new path, provided the old content ends at a
   * line boundary and no path or target carries a separator.
   */
  lemma PersistDirsReadsBack(content: string, dirs: seq<string>, copyTo: string)
    requires LoadDirs(content).Ok? && EndsLine(content)
    requires Plain(copyTo) && forall p :: p in dirs ==> Plain(p)
    ensures PersistDirs(content, dirs, copyTo).Ok?
    ensures LoadDirs(PersistDirs(content, dirs, copyTo).value) ==
      Ok(LoadDirs(content).value + Discovered(NewDirs(dirs, Sources(LoadDirs(content).value)), copyTo))
  {
    var existing := LoadDirs(content).value;
    var newPaths := NewDirs(dirs, Sources(existing));
    var lines := DiscoveredLines(newPaths, copyTo);
    ParseDiscovered(newPaths, copyTo);
    LinesAppend(content, Concat(lines));
    LinesOfConcat(lines);
    ParseAllAppend(Lines(content), lines);
  }

  /** The sources of two lists of results, one after the other. */
  lemma SourcesAppend(a: seq<DirectoryResult>, b: seq<DirectoryResult>)
    ensures Sources(a + b) == Sources(a) + Sources(b)
  {
  }

  /** Paths that are all existing sources leave nothing new. */
  lemma NothingNew(dirs: seq<string>, existing: seq<string>)
    requires forall p :: p in dirs ==> p in existing
    ensures NewDirs(dirs, existing) == []
  {
  }

  /** `persist_dirs` on content that already names every path leaves it as it is. */
  lemma PersistKnown(content: string, dirs: seq<string>, copyTo: string)
    requires LoadDirs(content).Ok?
    requires forall p :: p in dirs ==> p in Sources(LoadDirs(content).value)
    ensures PersistDirs(content, dirs, copyTo) == Ok(content)
  {
    NothingNew(dirs, Sources(LoadDirs(content).value));
    assert DiscoveredLines([], copyTo) == [];
    assert content + Concat([]) == content;
  }

  /** Persisting the same directories a second time appends nothing. */
  lemma PersistDirsIdempotent(content: string, dirs: seq<string>, copyTo: string)
    requires LoadDirs(content).Ok? && EndsLine(content)
    requires Plain(copyTo) && forall p :: p in dirs ==> Plain(p)
    ensures PersistDirs(content, dirs, copyTo).Ok?
    ensures PersistDirs(PersistDirs(content, dirs, copyTo).value, dirs, copyTo) == PersistDirs(content, dirs, copyTo)
  {
    var existing := LoadDirs(content).value;
    var newPaths := NewDirs(dirs, Sources(existing));
    var c1 := PersistDirs(content, dirs, copyTo).value;
    PersistDirsReadsBack(content, dirs, copyTo);
    var existing1 := existing + Discovered(newPaths, copyTo);
    SourcesAppend(existing, Discovered(newPaths, copyTo));
    assert Sources(existing1) == Sources(existing) + newPaths;
    PersistKnown(c1, dirs, copyTo);
  }

  /** `should_process`: not completed, and meant for this destination. */
  predicate ShouldProcess(r: DirectoryResult, copyTo: string)
  {
    r.status != "completed" && r.target == copyTo
  }

  /** The sources of the results `should_process` keeps, in file order. */
  function ToProcess(rs: seq<DirectoryResult>, copyTo: string): (ps: seq<string>)
    ensures forall p :: p in ps <==> exists k :: 0 <= k < |rs| && rs[k].source == p && ShouldProcess(rs[k], copyTo)
  {
    if |rs| == 0 then []
    else
      var rest := ToProcess(rs[1..], copyTo);
      assert forall k :: 1 <= k < |rs| ==> rs[k] == rs[1..][k - 1];
      (if ShouldProcess(rs[0], copyTo) then [rs[0].source] else []) + rest
  }

  /**
   * The filtering part of `discover_paths`: persist the found paths, read
   * the file back and keep the sources `should_process` accepts. Returns
   * the new file content and the paths to copy.
   */
  function DiscoverFrom(content: string, dirs: seq<string>, copyTo: string): (r: Result<(string, seq<string>), string>)
    ensures r.Ok? ==> |content| <= |r.value.0| && r.value.0[..|content|] == content
    ensures r.Ok? ==> exists rs :: LoadDirs(r.value.0) == Ok(rs) && r.value.1 == ToProcess(rs, copyTo)
    ensures LoadDirs(content).Err? ==> r.Err?
  {
    match PersistDirs(content, dirs, copyTo)
    case Err(e) => Err(e)
    case Ok(c1) =>
      match LoadDirs(c1)
      case Err(e) => Err(e)
      case Ok(rs) => Ok((c1, ToProcess(rs, copyTo)))
  }

  /** The paths kept from old results followed by new `discovered` ones for this destination. */
  lemma ToProcessWithDiscovered(known: seq<DirectoryResult>, paths: seq<string>, copyTo: string)
    ensures forall p :: p in ToProcess(known + Discovered(paths, copyTo), copyTo) <==>
      (exists k :: 0 <= k < |known| && known[k].source == p && ShouldProcess(known[k], copyTo)) || p in paths
  {
    var added := Discovered(paths, copyTo);
    var rs := known + added;
    forall p
      ensures p in ToProcess(rs, copyTo) <==>
        (exists k :: 0 <= k < |known| && known[k].source == p && ShouldProcess(known[k], copyTo)) || p in paths
    {
      if p in ToProcess(rs, copyTo) {
        var k :| 0 <= k < |rs| && rs[k].source == p && ShouldProcess(rs[k], copyTo);
        if k < |known| {
          assert known[k] == rs[k];
        } else {
          assert Sources(added)[k - |known|] == p;
        }
      }
      if p in paths {
        var j :| 0 <= j < |paths| && paths[j] == p;
        assert Sources(added)[j] == p;
        assert rs[|known| + j] == added[j];
      }
      if exists k :: 0 <= k < |known| && known[k].source == p && ShouldProcess(known[k], copyTo) {
        var k :| 0 <= k < |known| && known[k].source == p && ShouldProcess(known[k], copyTo);
        assert rs[k] == known[k];
      }
    }
  }

  /**
   * On a well-formed file, `discover_paths` lists a path exactly when an
   * existing line for it is still to be copied to this destination, or it
   * was found now and the file did not know it.
   */
  lemma DiscoverListsExactly(content: string, dirs: seq<string>, copyTo: string)
    requires LoadDirs(content).Ok? && EndsLine(content)
    requires Plain(copyTo) && forall p :: p in dirs ==> Plain(p)
    ensures DiscoverFrom(content, dirs, copyTo).Ok?
    ensures var existing := LoadDirs(content).value;
      forall p :: p in DiscoverFrom(content, dirs, copyTo).value.1 <==>
        (exists k :: 0 <= k < |existing| && existing[k].source == p && ShouldProcess(existing[k], copyTo)) ||
        (p in dirs && p !in Sources(existing))
  {
    var existing := LoadDirs(content).value;
    var newPaths := NewDirs(dirs, Sources(existing));
    PersistDirsReadsBack(content, dirs, copyTo);
    assert DiscoverFrom(content, dirs, copyTo).value.1 == ToProcess(existing + Discovered(newPaths, copyTo), copyTo);
    ToProcessWithDiscovered(existing, newPaths, copyTo);
  }

  /** A written line splits back into its three fields, the last with its newline. */
  lemma FormatSplit(source: string, target: string, status: string)
    requires Plain(source) && Plain(target) && Plain(status)
    ensures Split(FormatLine(source, target, status), ',') == [source, target, status + ['\n']]
  {
    var fields := [source, target, status + ['\n']];
    assert fields[1..][1..] == [status + ['\n']];
    assert JoinWith(fields[1..][1..], ',') == status + ['\n'];
    assert JoinWith(fields[1..], ',') == target + [','] + status + ['\n'];
    assert JoinWith(fields, ',') == FormatLine(source, target, status);
    SplitJoin(fields, ',');
  }

  /** Two written lines are equal only when their fields are. */
  lemma FormatInjective(r1: DirectoryResult, r2: DirectoryResult)
    requires Plain(r1.source) && Plain(r1.target) && Plain(r1.status)
    requires Plain(r2.source) && Plain(r2.target) && Plain(r2.status)
    requires FormatLine(r1.source, r1.target, r1.status) == FormatLine(r2.source, r2.target, r2.status)
    ensures r1 == r2
  {
    FormatSplit(r1.source, r1.target, r1.status);
    FormatSplit(r2.source, r2.target, r2.status);
    assert r1.status + ['\n'] == r2.status + ['\n'];
    assert r1.status == (r1.status + ['\n'])[..|r1.status|];
  }

  /** The line `persist_results` searches for: the directory's `discovered` line. */
  function SearchLine(r: DirectoryResult): string
  {
    FormatLine(r.source, r.target, "discovered")
  }

  /** The line `persist_results` puts in its place. */
  function ResultLine(r: DirectoryResult): string
  {
    FormatLine(r.source, r.target, r.status)
  }

  /**
   * `persist_results` as written: for each result in turn, every
   * occurrence of its search line anywhere in the content is replaced,
   * including one that starts in the middle of a longer line.
   */
  function PersistResultsAsWritten(content: string, results: seq<DirectoryResult>): string
    decreases |results|
  {
    if |results| == 0 then content
    else PersistResultsAsWritten(ReplaceAll(content, SearchLine(results[0]), ResultLine(results[0])), results[1..])
  }

  /** Results that are still `discovered` leave the content as it is. */
  lemma {:induction false} PersistDiscoveredUnchanged(content: string, results: seq<DirectoryResult>)
    requires forall k :: 0 <= k < |results| ==> results[k].status == "discovered"
    ensures PersistResultsAsWritten(content, results) == content
    decreases |results|
  {
    if |results| > 0 {
      ReplaceIdentity(content, SearchLine(results[0]));
      PersistDiscoveredUnchanged(content, results[1..]);
    }
  }

  /** Results whose search line does not occur leave the content as it is. */
  lemma {:induction false} PersistAbsentUnchanged(content: string, results: seq<DirectoryResult>)
    requires forall k :: 0 <= k < |results| ==> !Occurs(content, SearchLine(results[k]))
    ensures PersistResultsAsWritten(content, results) == content
    decreases |results|
  {
    if |results| > 0 {
      ReplaceAbsent(content, SearchLine(results[0]), ResultLine(results[0]));
      PersistAbsentUnchanged(content, results[1..]);
    }
  }

  /** Where the text and the pattern differ at offset `i`, the first character is copied and the scan moves on. */
  lemma ReplaceSkip(c: char, rest: string, pat: string, rep: string, i: nat)
    requires i < |pat| && i <= |rest| && ([c] + rest)[i] != pat[i]
    ensures ReplaceAll([c] + rest, pat, rep) == [c] + ReplaceAll(rest, pat, rep)
  {
    var s := [c] + rest;
    assert s[1..] == rest;
    if |s| >= |pat| {
      assert s[..|pat|][i] != pat[i];
    }
  }

  /** A line-shaped pattern at the end of a line's worth of text is the only occurrence the scan meets. */
  lemma {:induction false} ReplaceAtEnd(prefix: string, pat: string, rep: string)
    requires IsLine(pat) && '\n' !in prefix
    ensures ReplaceAll(prefix + pat, pat, rep) == prefix + rep
    decreases |prefix|
  {
    if |prefix| == 0 {
      assert prefix + pat == pat + "";
      ReplaceLeading(pat, "", rep);
    } else {
      ReplaceAtEnd(prefix[1..], pat, rep);
      ReplaceAtEndStep(prefix, pat, rep);
    }
  }

  /** The step of `ReplaceAtEnd`: the first character of the prefix cannot start a match, so it is copied. */
  lemma ReplaceAtEndStep(prefix: string, pat: string, rep: string)
    requires IsLine(pat) && '\n' !in prefix && |prefix| > 0
    requires ReplaceAll(prefix[1..] + pat, pat, rep) == prefix[1..] + rep
    ensures ReplaceAll(prefix + pat, pat, rep) == prefix + rep
  {
    var c, tail := prefix[0], prefix[1..];
    var rest := tail + pat;
    assert prefix + pat == [c] + rest by {
      assert prefix == [c] + tail;
    }
    assert ReplaceAll([c] + rest, pat, rep) == [c] + ReplaceAll(rest, pat, rep) by {
      var i := |pat| - 1;
      assert ([c] + rest)[i] != '\n' by {
        if i < |prefix| {
          assert ([c] + rest)[i] == prefix[i];
        } else {
          assert ([c] + rest)[i] == pat[i - |prefix|];
          assert pat[..|pat| - 1][i - |prefix|] == pat[i - |prefix|];
        }
      }
      ReplaceSkip(c, rest, pat, rep, i);
    }
    assert [c] + (tail + rep) == prefix + rep by {
      assert prefix == [c] + tail;
    }
  }

  /**
   * When directory `r.source` is processed, the line of any directory whose
   * path ends with it (`parent + r.source`, same target) ends with
   * `r.source`'s search line, so as written it takes `r`'s status too.
   */
  lemma PersistResultsRewritesSuffixPath(parent: string, r: DirectoryResult)
    requires PlainResult(r) && '\n' !in parent
    ensures PersistResultsAsWritten(SearchLine(DirectoryResult(parent + r.source, r.target, "discovered")), [r]) ==
      ResultLine(DirectoryResult(parent + r.source, r.target, r.status))
  {
    var line := SearchLine(DirectoryResult(parent + r.source, r.target, "discovered"));
    FormatPrefix(parent, r.source, r.target, "discovered");
    FormatPrefix(parent, r.source, r.target, r.status);
    FormatIsLine(r.source, r.target, "discovered");
    ReplaceAtEnd(parent, SearchLine(r), ResultLine(r));
    PersistOne(line, r);
  }

  /** A path prefix of the source is a prefix of the whole line. */
  lemma FormatPrefix(parent: string, source: string, target: string, status: string)
    ensures FormatLine(parent + source, target, status) == parent + FormatLine(source, target, status)
  {
  }

  /** Persisting a single result is one replacement. */
  lemma PersistOne(content: string, r: DirectoryResult)
    ensures PersistResultsAsWritten(content, [r]) == ReplaceAll(content, SearchLine(r), ResultLine(r))
  {
    assert [r][1..] == [];
  }

  /** One result applied to one line: a line equal to its search line becomes its result line. */
  function RewriteLine(line: string, r: DirectoryResult): string
  {
    if line == SearchLine(r) then ResultLine(r) else line
  }

  /** The results applied in turn to whole lines. */
  function RewriteLines(lines: seq<string>, results: seq<DirectoryResult>): (r: seq<string>)
    ensures |r| == |lines|
    decreases |results|
  {
    if |results| == 0 then lines
    else RewriteLines(seq(|lines|, k requires 0 <= k < |lines| => RewriteLine(lines[k], results[0])), results[1..])
  }

  /**
   * `persist_results` as evidently intended: a result changes only the line
   * that is exactly its `discovered` line.
   */
  function PersistResults(content: string, results: seq<DirectoryResult>): string
  {
    Concat(RewriteLines(Lines(content), results))
  }

  /** A line that is no result's search line is left as it is. */
  lemma {:induction false} RewriteKeepsOtherLines(lines: seq<string>, results: seq<DirectoryResult>)
    ensures forall k :: 0 <= k < |lines| && (forall j :: 0 <= j < |results| ==> lines[k] != SearchLine(results[j])) ==>
      RewriteLines(lines, results)[k] == lines[k]
    decreases |results|
  {
    if |results| > 0 {
      var next := seq(|lines|, k requires 0 <= k < |lines| => RewriteLine(lines[k], results[0]));
      RewriteKeepsOtherLines(next, results[1..]);
      forall k | 0 <= k < |lines| && (forall j :: 0 <= j < |results| ==> lines[k] != SearchLine(results[j]))
        ensures RewriteLines(lines, results)[k] == lines[k]
      {
        assert lines[k] != SearchLine(results[0]);
        assert next[k] == lines[k];
        forall j | 0 <= j < |results[1..]|
          ensures next[k] != SearchLine(results[1..][j])
        {
          assert results[1..][j] == results[j + 1];
        }
      }
    }
  }

  /** A result whose fields the file format can carry. */
  predicate PlainResult(r: DirectoryResult)
  {
    Plain(r.source) && Plain(r.target) && Plain(r.status)
  }

  /** At most one result per source and target, as a run that copies each directory once reports. */
  predicate OnePerDirectory(results: seq<DirectoryResult>)
  {
    forall i, j :: 0 <= i < j < |results| ==>
      (results[i].source, results[i].target) != (results[j].source, results[j].target)
  }

  /** Different directories have different search lines, and a result line is only its own search line. */
  lemma LinesOfOtherDirectory(r1: DirectoryResult, r2: DirectoryResult)
    requires PlainResult(r1) && PlainResult(r2) && (r1.source, r1.target) != (r2.source, r2.target)
    ensures SearchLine(r1) != SearchLine(r2) && ResultLine(r1) != SearchLine(r2)
  {
    var d1 := DirectoryResult(r1.source, r1.target, "discovered");
    var d2 := DirectoryResult(r2.source, r2.target, "discovered");
    if SearchLine(r1) == SearchLine(r2) {
      FormatInjective(d1, d2);
    }
    if ResultLine(r1) == SearchLine(r2) {
      FormatInjective(r1, d2);
    }
  }

  /**
   * The line-by-line rewrite leaves the file exactly as it was when no line
   * of it is the `discovered` line of any result.
   */
  lemma PersistResultsUnmatchedUnchanged(content: string, results: seq<DirectoryResult>)
    requires forall k, j :: 0 <= k < |Lines(content)| && 0 <= j < |results| ==> Lines(content)[k] != SearchLine(results[j])
    ensures PersistResults(content, results) == content
  {
    var lines := Lines(content);
    RewriteKeepsOtherLines(lines, results);
    assert RewriteLines(lines, results) == lines;
    LinesConcat(content);
  }

  /** With one result per directory, each directory's `discovered` line ends up as its result line. */
  lemma {:induction false} RewriteMarksEachDirectory(lines: seq<string>, results: seq<DirectoryResult>)
    requires forall j :: 0 <= j < |results| ==> PlainResult(results[j])
    requires OnePerDirectory(results)
    ensures forall k, j :: 0 <= k < |lines| && 0 <= j < |results| && lines[k] == SearchLine(results[j]) ==>
      RewriteLines(lines, results)[k] == ResultLine(results[j])
    decreases |results|
  {
    if |results| > 0 {
      var next := seq(|lines|, k requires 0 <= k < |lines| => RewriteLine(lines[k], results[0]));
      var rest := results[1..];
      assert forall j :: 0 <= j < |rest| ==> rest[j] == results[j + 1];
      RewriteMarksEachDirectory(next, rest);
      RewriteKeepsOtherLines(next, rest);
      forall k, j | 0 <= k < |lines| && 0 <= j < |results| && lines[k] == SearchLine(results[j])
        ensures RewriteLines(lines, results)[k] == ResultLine(results[j])
      {
        if j == 0 {
          assert next[k] == ResultLine(results[0]);
          forall i | 0 <= i < |rest|
            ensures next[k] != SearchLine(rest[i])
          {
            LinesOfOtherDirectory(results[0], results[i + 1]);
          }
        } else {
          LinesOfOtherDirectory(results[0], results[j]);
          assert next[k] == lines[k];
          assert lines[k] == SearchLine(rest[j - 1]);
        }
      }
    }
  }

  /** As intended, the line of `parent + r.source` is left alone when only `r.source` was processed. */
  lemma PersistResultsKeepsSuffixPath(parent: string, r: DirectoryResult)
    requires PlainResult(r) && Plain(parent) && |parent| > 0
    ensures PersistResults(SearchLine(DirectoryResult(parent + r.source, r.target, "discovered")), [r]) ==
      SearchLine(DirectoryResult(parent + r.source, r.target, "discovered"))
  {
    var line := SearchLine(DirectoryResult(parent + r.source, r.target, "discovered"));
    FormatIsLine(parent + r.source, r.target, "discovered");
    LinesOfConcat([line]);
    assert [line][1..] == [];
    assert line + "" == line;
    assert Concat([line]) == line;
    assert Lines(line) == [line];
    assert |SearchLine(r)| < |line|;
    PersistResultsUnmatchedUnchanged(line, [r]);
  }

  /**
   * On a directory's own `discovered` line the two readings agree: as
   * written and as intended, the line becomes the result line.
   */
  lemma PersistAgreeOnOwnLine(r: DirectoryResult)
    requires PlainResult(r)
    ensures PersistResultsAsWritten(SearchLine(r), [r]) == ResultLine(r)
    ensures PersistResults(SearchLine(r), [r]) == ResultLine(r)
  {
    var line := SearchLine(r);
    FormatIsLine(r.source, r.target, "discovered");
    PersistOne(line, r);
    assert "" + line == line;
    ReplaceAtEnd("", line, ResultLine(r));
    assert "" + ResultLine(r) == ResultLine(r);
    SingleLine(line);
    RewriteOwnLine(r);
    assert Concat([ResultLine(r)]) == ResultLine(r) + "";
  }

  /** A text that is one line splits into that line alone. */
  lemma SingleLine(line: string)
    requires IsLine(line)
    ensures Lines(line) == [line]
  {
    assert [line][1..] == [];
    assert Concat([line]) == line + Concat([]);
    assert line + "" == line;
    LinesOfConcat([line]);
  }

  /** A result applied to its own search line gives its result line. */
  lemma RewriteOwnLine(r: DirectoryResult)
    ensures RewriteLines([SearchLine(r)], [r]) == [ResultLine(r)]
  {
    var lines := [SearchLine(r)];
    var next := seq(|lines|, k requires 0 <= k < |lines| => RewriteLine(lines[k], r));
    assert next == [ResultLine(r)];
    assert [r][1..] == [];
  }
}
