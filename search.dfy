/** The scan of `search_folder`: per-file line matching, the running total
    of matches and the optional report, run over the candidate files one
    after another. */
module Search {
  import opened Wrappers
  import opened FarsiText
  import opened LineSplit
  import opened Discovery

  /** What opening and memory-mapping a candidate file gives: the decoded
      text, or nothing when the open or the map fails. */
  datatype FileContent = Unreadable | Mapped(text: string)

  /** The end of one call of `search_folder`. */
  datatype Outcome =
    | InvalidPattern    // the normalised pattern does not compile: an error result
    | CreatePanic       // the report file cannot be created: `unwrap` panics
    | Done(total: nat, report: Option<seq<string>>)

  /** The lines whose normal form the matcher accepts, original text kept,
      in input order. */
  function MatchingLines(lines: seq<string>, isMatch: string -> bool): (r: seq<string>)
    ensures |r| <= |lines|
  {
    if lines == [] then []
    else (if isMatch(Normalize(lines[0])) then [lines[0]] else []) + MatchingLines(lines[1..], isMatch)
  }

  /** Matching a line more only concerns that line. */
  lemma {:induction false} MatchingLinesAppend(lines: seq<string>, l: string, isMatch: string -> bool)
    ensures MatchingLines(lines + [l], isMatch) ==
            MatchingLines(lines, isMatch) + (if isMatch(Normalize(l)) then [l] else [])
  {
    if lines == [] {
      assert lines + [l] == [l];
    } else {
      var x := lines[0];
      var head := if isMatch(Normalize(x)) then [x] else [];
      var tail := if isMatch(Normalize(l)) then [l] else [];
      assert (lines + [l])[0] == x;
      assert (lines + [l])[1..] == lines[1..] + [l];
      assert MatchingLines(lines + [l], isMatch) == head + MatchingLines(lines[1..] + [l], isMatch);
      MatchingLinesAppend(lines[1..], l, isMatch);
      assert MatchingLines(lines, isMatch) == head + MatchingLines(lines[1..], isMatch);
      assert head + (MatchingLines(lines[1..], isMatch) + tail) == (head + MatchingLines(lines[1..], isMatch)) + tail;
    }
  }

  /** A line is among the matches exactly when it is a line of the file and
      its normal form is accepted; so every reported line matched, and no
      matching line is missed. */
  lemma {:induction false} MatchingLinesMembership(lines: seq<string>, isMatch: string -> bool, l: string)
    ensures l in MatchingLines(lines, isMatch) <==> l in lines && isMatch(Normalize(l))
  {
    if lines != [] {
      MatchingLinesMembership(lines[1..], isMatch, l);
      assert lines == [lines[0]] + lines[1..];
    }
  }

  /** Every match is a line of the file that the matcher accepts. */
  lemma MatchingLinesWithin(lines: seq<string>, isMatch: string -> bool)
    ensures forall i :: 0 <= i < |MatchingLines(lines, isMatch)| ==>
              MatchingLines(lines, isMatch)[i] in lines && isMatch(Normalize(MatchingLines(lines, isMatch)[i]))
  {
    var r := MatchingLines(lines, isMatch);
    forall i | 0 <= i < |r| ensures r[i] in lines && isMatch(Normalize(r[i])) {
      MatchingLinesMembership(lines, isMatch, r[i]);
    }
  }

  /** The number of lines whose normal form the matcher accepts. */
  function CountMatching(lines: seq<string>, isMatch: string -> bool): nat {
    if lines == [] then 0
    else (if isMatch(Normalize(lines[0])) then 1 else 0) + CountMatching(lines[1..], isMatch)
  }

  /** One entry of the matches per matching line, and all lines when all
      match. */
  lemma {:induction false} MatchingLinesCount(lines: seq<string>, isMatch: string -> bool)
    ensures |MatchingLines(lines, isMatch)| == CountMatching(lines, isMatch)
    ensures CountMatching(lines, isMatch) == |lines| <==> MatchingLines(lines, isMatch) == lines
  {
    if lines != [] {
      MatchingLinesCount(lines[1..], isMatch);
      if MatchingLines(lines, isMatch) == lines {
        assert |MatchingLines(lines, isMatch)| == |lines|;
      }
      if CountMatching(lines, isMatch) == |lines| {
        assert CountMatching(lines[1..], isMatch) <= |lines[1..]| by {
          CountBound(lines[1..], isMatch);
        }
        assert lines == [lines[0]] + lines[1..];
      }
    }
  }

  lemma {:induction false} CountBound(lines: seq<string>, isMatch: string -> bool)
    ensures CountMatching(lines, isMatch) <= |lines|
  {
    if lines != [] {
      CountBound(lines[1..], isMatch);
    }
  }

  /** The per-file loop: every line is normalised and tested, and the
      original text of each accepted line is pushed onto `matches`. */
  method MatchFile(lines: seq<string>, isMatch: string -> bool) returns (matches: seq<string>)
    ensures matches == MatchingLines(lines, isMatch)
  {
    matches := [];
    for i := 0 to |lines|
      invariant matches == MatchingLines(lines[..i], isMatch)
    {
      var line := lines[i];
      var normalizedLine := Normalize(line);
      if isMatch(normalizedLine) {
        matches := matches + [line];
      }
      MatchingLinesAppend(lines[..i], line, isMatch);
      assert lines[..i + 1] == lines[..i] + [line];
    }
    assert lines[..|lines|] == lines;
  }

  /** The matches of one candidate file; a file that cannot be opened or
      mapped has none. */
  function FileMatches(content: FileContent, isMatch: string -> bool): (r: seq<string>)
    ensures content.Unreadable? ==> r == []
    ensures content.Mapped? ==> |r| <= |Lines(content.text)| <= |content.text|
    ensures forall i :: 0 <= i < |r| ==> '\n' !in r[i] && isMatch(Normalize(r[i]))
  {
    match content
      case Unreadable => []
      case Mapped(text) =>
        MatchingLinesWithin(Lines(text), isMatch);
        MatchingLines(Lines(text), isMatch)
  }

  /** The matches of every path, given the file system and the matcher. */
  function FileMatchesIn(fs: string -> FileContent, isMatch: string -> bool): string -> seq<string>
  {
    p => FileMatches(fs(p), isMatch)
  }

  /** The report block of one file: its path followed by " =", its matched
      lines, and an empty line; nothing for a file without matches. */
  function Block(path: string, matches: seq<string>): (r: seq<string>)
    ensures |r| == if matches == [] then 0 else |matches| + 2
  {
    if matches == [] then [] else [path + " ="] + matches + [""]
  }

  /** The block format: nothing for no matches; otherwise the header line,
      exactly the matched lines in order, and the empty separator. */
  lemma BlockFormat(path: string, matches: seq<string>)
    ensures matches == [] <==> Block(path, matches) == []
    ensures matches != [] ==>
              var b := Block(path, matches);
              |b| == |matches| + 2 && b[0] == path + " =" && b[1..|b| - 1] == matches && b[|b| - 1] == ""
  {
    if matches != [] {
      var b := Block(path, matches);
      assert b[1..|b| - 1] == matches;
    }
  }

  /** The sum of the match counts of the files. */
  function TotalMatches(files: seq<string>, matchesOf: string -> seq<string>): (r: nat)
    ensures forall i :: 0 <= i < |files| ==> |matchesOf(files[i])| <= r
    ensures r == 0 <==> forall i :: 0 <= i < |files| ==> matchesOf(files[i]) == []
  {
    if files == [] then 0
    else |matchesOf(files[0])| + TotalMatches(files[1..], matchesOf)
  }

  /** The report: the blocks of the files, in scan order. */
  function Report(files: seq<string>, matchesOf: string -> seq<string>): (r: seq<string>)
    ensures r == [] <==> TotalMatches(files, matchesOf) == 0
  {
    if files == [] then []
    else Block(files[0], matchesOf(files[0])) + Report(files[1..], matchesOf)
  }

  /** The files that contribute a block. */
  function FilesWithMatches(files: seq<string>, matchesOf: string -> seq<string>): (r: seq<string>)
    ensures |r| <= |files|
  {
    if files == [] then []
    else (if matchesOf(files[0]) != [] then [files[0]] else [])
         + FilesWithMatches(files[1..], matchesOf)
  }

  /** The total is a sum over the files: scanning a list in two parts adds
      the parts' totals. */
  lemma {:induction false} TotalConcat(a: seq<string>, b: seq<string>, matchesOf: string -> seq<string>)
    ensures TotalMatches(a + b, matchesOf) == TotalMatches(a, matchesOf) + TotalMatches(b, matchesOf)
  {
    if a == [] {
      assert a + b == b;
    } else {
      assert (a + b)[0] == a[0];
      assert (a + b)[1..] == a[1..] + b;
      TotalConcat(a[1..], b, matchesOf);
    }
  }

  /** The report is a concatenation over the files: scanning a list in two
      parts writes the first part's blocks, then the second's. */
  lemma {:induction false} ReportConcat(a: seq<string>, b: seq<string>, matchesOf: string -> seq<string>)
    ensures Report(a + b, matchesOf) == Report(a, matchesOf) + Report(b, matchesOf)
  {
    if a == [] {
      assert a + b == b;
    } else {
      assert (a + b)[0] == a[0];
      assert (a + b)[1..] == a[1..] + b;
      ReportConcat(a[1..], b, matchesOf);
    }
  }

  /** The scan of a single file. */
  lemma SingleFile(p: string, matchesOf: string -> seq<string>)
    ensures TotalMatches([p], matchesOf) == |matchesOf(p)|
    ensures Report([p], matchesOf) == Block(p, matchesOf(p))
  {
    assert [p][1..] == [];
  }

  /** Scanning one file more adds its count to the total and its block to
      the end of the report. */
  lemma ScanStep(files: seq<string>, i: nat, matchesOf: string -> seq<string>)
    requires i < |files|
    ensures TotalMatches(files[..i + 1], matchesOf) == TotalMatches(files[..i], matchesOf) + |matchesOf(files[i])|
    ensures Report(files[..i + 1], matchesOf) == Report(files[..i], matchesOf) + Block(files[i], matchesOf(files[i]))
  {
    assert files[..i + 1] == files[..i] + [files[i]];
    SingleFile(files[i], matchesOf);
    TotalConcat(files[..i], [files[i]], matchesOf);
    ReportConcat(files[..i], [files[i]], matchesOf);
  }

  /** A file without matches (in particular one that cannot be opened or
      mapped) adds nothing to the total and writes nothing. */
  lemma SilentFile(a: seq<string>, p: string, b: seq<string>, matchesOf: string -> seq<string>)
    requires matchesOf(p) == []
    ensures TotalMatches(a + [p] + b, matchesOf) == TotalMatches(a + b, matchesOf)
    ensures Report(a + [p] + b, matchesOf) == Report(a + b, matchesOf)
  {
    var ap := a + [p];
    SingleFile(p, matchesOf);
    assert TotalMatches(ap + b, matchesOf) == TotalMatches(a + b, matchesOf) by {
      TotalConcat(a, [p], matchesOf);
      assert TotalMatches(ap, matchesOf) == TotalMatches(a, matchesOf);
      TotalConcat(ap, b, matchesOf);
      TotalConcat(a, b, matchesOf);
    }
    assert Report(ap + b, matchesOf) == Report(a + b, matchesOf) by {
      ReportConcat(a, [p], matchesOf);
      assert Report(ap, matchesOf) == Report(a, matchesOf) + [];
      assert Report(ap, matchesOf) == Report(a, matchesOf);
      ReportConcat(ap, b, matchesOf);
      ReportConcat(a, b, matchesOf);
    }
  }

  /** Count and report agree: the report holds each counted line once,
      plus a header and a separator per file that has matches. */
  lemma {:induction false} ReportSize(files: seq<string>, matchesOf: string -> seq<string>)
    ensures |Report(files, matchesOf)| ==
            TotalMatches(files, matchesOf) + 2 * |FilesWithMatches(files, matchesOf)|
  {
    if files != [] {
      ReportSize(files[1..], matchesOf);
    }
  }

  /** Taking one file out of the list takes its count out of the total. */
  lemma TotalRemove(b: seq<string>, k: nat, matchesOf: string -> seq<string>)
    requires k < |b|
    ensures TotalMatches(b, matchesOf) == |matchesOf(b[k])| + TotalMatches(b[..k] + b[k + 1..], matchesOf)
  {
    var left, x, right := b[..k], b[k], b[k + 1..];
    assert b == left + [x] + right;
    SingleFile(x, matchesOf);
    TotalConcat(left, [x], matchesOf);
    TotalConcat(left + [x], right, matchesOf);
    TotalConcat(left, right, matchesOf);
  }

  /** Removing one occurrence of an element common to two permutations
      leaves permutations. */
  lemma PermutationRemove(a: seq<string>, b: seq<string>, k: nat)
    requires multiset(a) == multiset(b) && a != [] && k < |b| && b[k] == a[0]
    ensures multiset(a[1..]) == multiset(b[..k] + b[k + 1..])
  {
    var x := a[0];
    assert b == b[..k] + [x] + b[k + 1..];
    assert a == [x] + a[1..];
    assert multiset(b) == multiset(b[..k] + b[k + 1..]) + multiset{x};
    assert multiset(a) == multiset(a[1..]) + multiset{x};
    assert multiset(a[1..]) == multiset(a) - multiset{x};
    assert multiset(b[..k] + b[k + 1..]) == multiset(b) - multiset{x};
  }

  /** The total does not depend on the order in which the files are
      scanned, so any order the worker pool picks gives the same count. */
  lemma {:induction false} TotalOrderIndependent(a: seq<string>, b: seq<string>, matchesOf: string -> seq<string>)
    requires multiset(a) == multiset(b)
    ensures TotalMatches(a, matchesOf) == TotalMatches(b, matchesOf)
    decreases |a|
  {
    if a == [] {
      assert |b| == |multiset(b)| == 0;
    } else {
      assert a[0] in multiset(b);
      var k :| 0 <= k < |b| && b[k] == a[0];
      PermutationRemove(a, b, k);
      TotalOrderIndependent(a[1..], b[..k] + b[k + 1..], matchesOf);
      TotalRemove(b, k, matchesOf);
    }
  }

  /** Appends one file's block to the report writer: the header line, each
      matched line in turn, then the empty separator line. */
  method WriteBlock(report: seq<string>, path: string, matches: seq<string>) returns (written: seq<string>)
    requires matches != []
    ensures written == report + Block(path, matches)
  {
    written := report + [path + " ="];
    for j := 0 to |matches|
      invariant written == report + [path + " ="] + matches[..j]
    {
      written := written + [matches[j]];
      assert matches[..j + 1] == matches[..j] + [matches[j]];
    }
    assert matches[..|matches|] == matches;
    written := written + [""];
    assert Block(path, matches) == [path + " ="] + matches + [""];
  }

  /** The work on one candidate file: if it can be opened and mapped, its
      lines are matched; when there are matches, their number is added to
      the total and, when there is a report, the file's block is written. */
  method ScanFile(path: string, content: FileContent, isMatch: string -> bool,
                  total: nat, writer: Option<seq<string>>)
    returns (total': nat, writer': Option<seq<string>>)
    ensures total' == total + |FileMatches(content, isMatch)|
    ensures writer'.Some? == writer.Some?
    ensures writer.Some? ==> writer'.value == writer.value + Block(path, FileMatches(content, isMatch))
  {
    total', writer' := total, writer;
    assert writer.Some? ==> writer.value + [] == writer.value;
    if content.Mapped? {
      var matches := MatchFile(Lines(content.text), isMatch);
      if matches != [] {
        total' := total + |matches|;
        if writer.Some? {
          var written := WriteBlock(writer.value, path, matches);
          writer' := Some(written);
        }
      }
    }
  }

  /** The loop over the candidate files: each file's count is added to the
      running total and, when the report file was opened (`writer` starts as
      an empty report), its block is appended to the report. */
  method ScanFiles(files: seq<string>, fs: string -> FileContent, isMatch: string -> bool,
                   writer0: Option<seq<string>>)
    returns (total: nat, writer: Option<seq<string>>)
    requires writer0 == None || writer0 == Some([])
    ensures total == TotalMatches(files, FileMatchesIn(fs, isMatch))
    ensures writer.Some? == writer0.Some?
    ensures writer.Some? ==> writer.value == Report(files, FileMatchesIn(fs, isMatch))
  {
    ghost var matchesOf := FileMatchesIn(fs, isMatch);
    total, writer := 0, writer0;
    for i := 0 to |files|
      invariant total == TotalMatches(files[..i], matchesOf)
      invariant writer.Some? == writer0.Some?
      invariant writer.Some? ==> writer.value == Report(files[..i], matchesOf)
    {
      var path := files[i];
      ghost var m := matchesOf(path);
      assert m == FileMatches(fs(path), isMatch);
      total, writer := ScanFile(path, fs(path), isMatch, total, writer);
      ScanStep(files, i, matchesOf);
    }
    assert files[..|files|] == files;
  }

  /** `search_folder`, run sequentially over the candidate files in walk
      order. The pattern is normalised and then compiled by `compile`
      (None: it does not compile); `walk` is what the directory walk yields;
      `fs` gives each path's content; `output` is the optional report path
      and `creatable` whether that file can be created. The report is the
      sequence of lines written to it. */
  method SearchFolder(pattern: string, compile: string -> Option<string -> bool>,
                      walk: seq<WalkItem>, fs: string -> FileContent,
                      output: Option<string>, creatable: bool)
    returns (out: Outcome)
    ensures compile(Normalize(pattern)).None? ==> out == InvalidPattern
    ensures compile(Normalize(pattern)).Some? && output.Some? && !creatable ==> out == CreatePanic
    ensures compile(Normalize(pattern)).Some? && (output.None? || creatable) ==>
      var matchesOf := FileMatchesIn(fs, compile(Normalize(pattern)).value);
      var files := Candidates(walk);
      out == Done(TotalMatches(files, matchesOf),
                  if output.Some? then Some(Report(files, matchesOf)) else None)
  {
    var normalizedPattern := Normalize(pattern);
    var regex := compile(normalizedPattern);
    if regex.None? {
      return InvalidPattern;
    }
    var files := Candidates(walk);
    if output.Some? && !creatable {
      return CreatePanic;
    }
    var writer: Option<seq<string>> := if output.Some? then Some([]) else None;
    var total;
    total, writer := ScanFiles(files, fs, regex.value, writer);
    return Done(total, writer);
  }
}
