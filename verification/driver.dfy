/** The per-file loop and the final report: load each file, examine it,
    recover from an undeclared-prefix parse error, and emit one error line
    per (file, missing prefix). Loading and parsing are given as results. */
module Driver {
  import opened Lists
  import opened Text
  import opened Detector

  /** What loading a file can throw: an `XmlException`, or anything else. */
  datatype LoadFailure = XmlException(message: string) | OtherException(message: string)

  /** The outcome of loading and parsing one file. */
  datatype Load = Loaded(file: ParsedFile) | LoadFailed(failure: LoadFailure)

  datatype SourceFile = SourceFile(path: string, load: Load)

  /** A file's examination either yields its missing prefixes or lets an
      exception escape the per-file handler. */
  datatype FileOutcome = Examined(missing: seq<string>) | Escaped(failure: LoadFailure)

  /** The text the exception filter looks for. */
  const UndeclaredPrefixPhrase := "is an undeclared prefix"

  /** `message.Split('\'')`, keeping the second piece when there is one. */
  function RecoveredPrefix(message: string): (r: seq<string>)
    ensures |r| <= 1
    ensures |r| == 1 <==> '\'' in message
    ensures forall k :: 0 <= k < |r| ==> '\'' !in r[k]
  {
    var ns := Split(message, '\'');
    SplitHasSecondPiece(message, '\'');
    if |ns| >= 2 then [ns[1]] else []
  }

  /** The recovered text runs from the first quote to the next one. */
  lemma {:induction false} RecoveredQuotedSegment(before: string, p: string, rest: string)
    requires '\'' !in before && '\'' !in p
    ensures RecoveredPrefix(before + "'" + p + "'" + rest) == [p]
  {
    assert before + "'" + p + "'" + rest == before + ['\''] + (p + ['\''] + rest);
    SplitAtFirstSeparator(before, '\'', p + ['\''] + rest);
    SplitAtFirstSeparator(p, '\'', rest);
  }

  /** ... or to the end of the message when no second quote follows. */
  lemma {:induction false} RecoveredUnterminatedSegment(before: string, p: string)
    requires '\'' !in before && '\'' !in p
    ensures RecoveredPrefix(before + "'" + p) == [p]
  {
    SplitAtFirstSeparator(before, '\'', p);
    SplitWithoutSeparator(p, '\'');
  }

  /** Examining one file: a loaded file yields its missing prefixes; an
      `XmlException` whose message holds the phrase yields the recovered
      prefix, if any; every other failure escapes. */
  function ExamineFile(load: Load): (r: FileOutcome)
    ensures r.Escaped? <==>
      load.LoadFailed? &&
      (load.failure.OtherException? || !Contains(load.failure.message, UndeclaredPrefixPhrase))
    ensures r.Escaped? ==> r.failure == load.failure
    ensures load.Loaded? ==> r.Examined?
    ensures r.Examined? ==> NoDuplicates(r.missing)
    ensures load.LoadFailed? && r.Examined? ==>
      |r.missing| <= 1 && (r.missing != [] <==> '\'' in load.failure.message)
  {
    match load
    case Loaded(f) => Examined(MissingPrefixes(f))
    case LoadFailed(XmlException(m)) =>
      if Contains(m, UndeclaredPrefixPhrase) then Examined(RecoveredPrefix(m)) else Escaped(load.failure)
    case LoadFailed(OtherException(_)) => Escaped(load.failure)
  }

  /** Text found inside the tail of a string is found inside the string. */
  lemma {:induction false} ContainedInTail(a: string, b: string, sub: string)
    requires Contains(b, sub)
    ensures Contains(a + b, sub)
    decreases |a|
  {
    if a == [] {
      assert a + b == b;
    } else {
      ContainedInTail(a[1..], b, sub);
      assert (a + b)[1..] == a[1..] + b;
    }
  }

  /** A message that starts with a quoted prefix and mentions the phrase
      later is recovered as that prefix. */
  lemma {:induction false} QuotedPrefixIsRecovered(p: string, rest: string)
    requires '\'' !in p && Contains(rest, UndeclaredPrefixPhrase)
    ensures ExamineFile(LoadFailed(XmlException("'" + p + "'" + rest))) == Examined([p])
  {
    var message := "'" + p + "'" + rest;
    ContainedInTail("'" + p + "'", rest, UndeclaredPrefixPhrase);
    assert RecoveredPrefix(message) == [p] by {
      assert message == [] + "'" + p + "'" + rest;
      RecoveredQuotedSegment([], p, rest);
    }
  }

  lemma {:induction false} PhraseFollowsSpace(position: string)
    ensures Contains(" is an undeclared prefix." + position, UndeclaredPrefixPhrase)
  {
    var tail := " is an undeclared prefix." + position;
    assert tail[1..] == UndeclaredPrefixPhrase + ("." + position);
    PrefixContained(tail[1..], UndeclaredPrefixPhrase);
  }

  /** The parser's undeclared-prefix error (`'p' is an undeclared prefix.`
      followed by the position) yields exactly that prefix. */
  lemma {:induction false} UndeclaredPrefixErrorYieldsPrefix(p: string, position: string)
    requires '\'' !in p
    ensures ExamineFile(LoadFailed(XmlException("'" + p + "'" + (" is an undeclared prefix." + position))))
         == Examined([p])
  {
    PhraseFollowsSpace(position);
    QuotedPrefixIsRecovered(p, " is an undeclared prefix." + position);
  }

  /** One entry of the file-to-missing-prefixes dictionary. */
  datatype Entry = Entry(path: string, missing: seq<string>)

  function Paths(entries: seq<Entry>): seq<string> {
    seq(|entries|, k requires 0 <= k < |entries| => entries[k].path)
  }

  /** Why a scan stopped before its report. */
  datatype AbortCause = RepeatedPath | Unhandled(failure: LoadFailure)

  datatype ScanResult = Completed(entries: seq<Entry>) | Aborted(path: string, cause: AbortCause)

  /** One file of the loop: its path and what examining it gives. */
  datatype Visit = Visit(path: string, outcome: FileOutcome)

  /** Examining every file. Examination is pure, so examining the files up
      front and then running the loop over the outcomes is the same as
      examining each file inside the loop. */
  function Visits(files: seq<SourceFile>): seq<Visit> {
    seq(|files|, k requires 0 <= k < |files| => Visit(files[k].path, ExamineFile(files[k].load)))
  }

  /** The `k`-th visit is the `k`-th file's path and outcome. */
  lemma {:induction false} VisitsByIndex(files: seq<SourceFile>)
    ensures |Visits(files)| == |files|
    ensures forall k :: 0 <= k < |files| ==> Visits(files)[k] == Visit(files[k].path, ExamineFile(files[k].load))
  {
  }

  /** The per-file loop from a given dictionary: a repeated path makes the
      dictionary insertion throw; an escaping exception ends the loop. */
  function Collect(entries: seq<Entry>, visits: seq<Visit>): (r: ScanResult)
    ensures r.Completed? ==> entries <= r.entries && |r.entries| == |entries| + |visits|
    ensures r.Aborted? ==> r.path in VisitPaths(visits)
    decreases |visits|
  {
    if visits == [] then Completed(entries)
    else
      var v := visits[0];
      assert VisitPaths(visits) == [v.path] + VisitPaths(visits[1..]);
      if v.path in Paths(entries) then Aborted(v.path, RepeatedPath)
      else match v.outcome
        case Escaped(e) => Aborted(v.path, Unhandled(e))
        case Examined(missing) => Collect(entries + [Entry(v.path, missing)], visits[1..])
  }

  /** The loop over the directory's files, starting from an empty dictionary. */
  function Scan(files: seq<SourceFile>): (r: ScanResult)
    ensures r.Completed? ==> |r.entries| == |files|
    ensures r.Aborted? ==> r.path in FilePaths(files)
  {
    var visits := Visits(files);
    VisitPathsAreFilePaths(files);
    Collect([], visits)
  }

  function FilePaths(files: seq<SourceFile>): seq<string> {
    seq(|files|, k requires 0 <= k < |files| => files[k].path)
  }

  function VisitPaths(visits: seq<Visit>): seq<string> {
    seq(|visits|, k requires 0 <= k < |visits| => visits[k].path)
  }

  /** Examining the files keeps their paths, in order. */
  lemma {:induction false} VisitPathsAreFilePaths(files: seq<SourceFile>)
    ensures VisitPaths(Visits(files)) == FilePaths(files)
  {
  }

  /** No visited file let an exception escape. */
  ghost predicate AllHandled(visits: seq<Visit>) {
    forall k :: 0 <= k < |visits| ==> visits[k].outcome.Examined?
  }

  /** No file lets an exception escape. */
  ghost predicate AllExamined(files: seq<SourceFile>) {
    forall k :: 0 <= k < |files| ==> ExamineFile(files[k].load).Examined?
  }

  lemma {:induction false} AllHandledCons(visits: seq<Visit>)
    requires visits != []
    ensures AllHandled(visits) <==> visits[0].outcome.Examined? && AllHandled(visits[1..])
  {
    assert forall k :: 1 <= k < |visits| ==> visits[k] == visits[1..][k - 1];
  }

  /** In a completed loop, the entry for the `k`-th visit holds its path
      and its missing prefixes. */
  lemma {:induction false} CollectEntry(entries: seq<Entry>, visits: seq<Visit>, k: int)
    requires Collect(entries, visits).Completed? && 0 <= k < |visits|
    ensures visits[k].outcome.Examined?
    ensures Collect(entries, visits).entries[|entries| + k] == Entry(visits[k].path, visits[k].outcome.missing)
    decreases |visits|
  {
    var v := visits[0];
    var next := entries + [Entry(v.path, v.outcome.missing)];
    if k > 0 {
      CollectEntry(next, visits[1..], k - 1);
      assert visits[1..][k - 1] == visits[k];
    }
  }

  /** The loop completes exactly when no path repeats and no visited file
      let an exception escape. */
  lemma {:induction false} CollectCompletes(entries: seq<Entry>, visits: seq<Visit>)
    requires NoDuplicates(Paths(entries))
    ensures Collect(entries, visits).Completed? <==>
      NoDuplicates(Paths(entries) + VisitPaths(visits)) && AllHandled(visits)
    decreases |visits|
  {
    var seen := Paths(entries);
    if visits == [] {
      assert seen + VisitPaths(visits) == seen;
    } else {
      var v := visits[0];
      var later := VisitPaths(visits[1..]);
      assert seen + VisitPaths(visits) == (seen + [v.path]) + later;
      NoDuplicatesSnoc(seen, v.path);
      AllHandledCons(visits);
      if v.path in seen {
        if NoDuplicates((seen + [v.path]) + later) {
          NoDuplicatesSplit(seen + [v.path], later);
        }
      } else if v.outcome.Examined? {
        var next := entries + [Entry(v.path, v.outcome.missing)];
        assert Paths(next) == seen + [v.path];
        CollectCompletes(next, visits[1..]);
      }
    }
  }

  /** A scan completes exactly when no path repeats and no file lets an
      exception escape. */
  lemma {:induction false} ScanCompletes(files: seq<SourceFile>)
    ensures Scan(files).Completed? <==> NoDuplicates(FilePaths(files)) && AllExamined(files)
  {
    var visits := Visits(files);
    CollectCompletes([], visits);
    VisitPathsAreFilePaths(files);
    assert Paths([]) + VisitPaths(visits) == VisitPaths(visits);
    VisitsHandled(files);
  }

  lemma {:induction false} VisitsHandled(files: seq<SourceFile>)
    ensures AllHandled(Visits(files)) <==> AllExamined(files)
  {
    var visits := Visits(files);
    VisitsByIndex(files);
    assert forall k :: 0 <= k < |files| ==> visits[k].outcome == ExamineFile(files[k].load);
  }

  /** The (file, missing prefix) pairs of one entry. */
  function PairsOf(e: Entry): (r: seq<(string, string)>)
    ensures |r| == |e.missing|
    ensures forall path, p :: (path, p) in r <==> path == e.path && p in e.missing
    ensures NoDuplicates(e.missing) ==> NoDuplicates(r)
  {
    var r := seq(|e.missing|, k requires 0 <= k < |e.missing| => (e.path, e.missing[k]));
    assert forall k :: 0 <= k < |e.missing| ==> r[k] == (e.path, e.missing[k]);
    r
  }

  /** Every (file, missing prefix) pair of the dictionary, entry by entry. */
  function Findings(entries: seq<Entry>): (r: seq<(string, string)>)
    ensures forall path, p :: (path, p) in r <==> exists e :: e in entries && e.path == path && p in e.missing
    decreases |entries|
  {
    if entries == [] then []
    else
      var e := entries[0];
      assert forall x :: x in entries <==> x == e || x in entries[1..];
      PairsOf(e) + Findings(entries[1..])
  }

  /** The error line logged for one finding. */
  function ErrorLine(path: string, prefix: string): string {
    "Namespace missing from " + path + " - " + prefix
  }

  /** What the report logs: the number of files with at least one missing
      prefix, and one error line per finding of those files. */
  datatype Report = Report(filesWithFindings: nat, errorLines: seq<string>)

  /** The report of a completed scan: the error lines are the findings of
      every entry, one line each and in dictionary order; the count is the
      number of files with a finding. */
  function ReportOf(entries: seq<Entry>): (r: Report)
    ensures |r.errorLines| == |Findings(entries)|
    ensures forall k :: 0 <= k < |r.errorLines| ==>
      r.errorLines[k] == ErrorLine(Findings(entries)[k].0, Findings(entries)[k].1)
    ensures r.filesWithFindings == |set k | 0 <= k < |entries| && entries[k].missing != []|
    ensures r.filesWithFindings <= |entries|
    ensures r.filesWithFindings <= |r.errorLines|
    ensures r.filesWithFindings == 0 <==> Findings(entries) == []
  {
    var keep := (e: Entry) => e.missing != [];
    var reported := Filter(entries, keep);
    var findings := Findings(reported);
    ReportedFindingsAreAllFindings(entries);
    FindingsOfNonEmptyEntries(reported);
    FilterCount(entries, keep);
    assert IndexesWhere(entries, keep) == set k | 0 <= k < |entries| && entries[k].missing != [];
    Report(|reported|, seq(|findings|, k requires 0 <= k < |findings| => ErrorLine(findings[k].0, findings[k].1)))
  }

  /** Entries that each miss a prefix contribute at least one finding each. */
  lemma {:induction false} FindingsOfNonEmptyEntries(entries: seq<Entry>)
    requires forall e :: e in entries ==> e.missing != []
    ensures |entries| <= |Findings(entries)|
    ensures entries == [] <==> Findings(entries) == []
    decreases |entries|
  {
    if entries != [] {
      assert entries[0] in entries;
      assert forall e :: e in entries[1..] ==> e in entries;
      FindingsOfNonEmptyEntries(entries[1..]);
    }
  }

  /** Leaving out the files without findings loses no finding and
      changes no order. */
  lemma {:induction false} ReportedFindingsAreAllFindings(entries: seq<Entry>)
    ensures Findings(Filter(entries, (e: Entry) => e.missing != [])) == Findings(entries)
    decreases |entries|
  {
    if entries != [] {
      ReportedFindingsAreAllFindings(entries[1..]);
      var keep := (e: Entry) => e.missing != [];
      if keep(entries[0]) {
        var r := Filter(entries, keep);
        assert r[0] == entries[0] && r[1..] == Filter(entries[1..], keep);
      } else {
        assert PairsOf(entries[0]) == [];
      }
    }
  }

  /** Distinct paths and duplicate-free lists give distinct findings. */
  lemma {:induction false} FindingsAreDistinct(entries: seq<Entry>)
    requires NoDuplicates(Paths(entries))
    requires forall k :: 0 <= k < |entries| ==> NoDuplicates(entries[k].missing)
    ensures NoDuplicates(Findings(entries))
    decreases |entries|
  {
    if entries != [] {
      var e := entries[0];
      var rest := entries[1..];
      assert Paths(entries) == [e.path] + Paths(rest);
      NoDuplicatesCons(Paths(entries));
      assert forall k :: 0 <= k < |rest| ==> rest[k] == entries[k + 1];
      FindingsAreDistinct(rest);
      forall x | x in Findings(rest) ensures x !in PairsOf(e) {
        FindingPathIsListed(rest, x);
      }
      NoDuplicatesAppend(PairsOf(e), Findings(rest));
    }
  }

  /** Every finding belongs to an entry's path. */
  lemma {:induction false} FindingPathIsListed(entries: seq<Entry>, x: (string, string))
    requires x in Findings(entries)
    ensures x.0 in Paths(entries)
  {
    var e :| e in entries && e.path == x.0 && x.1 in e.missing;
    var k :| 0 <= k < |entries| && entries[k] == e;
    assert Paths(entries)[k] == x.0;
  }

  /** A completed loop holds one entry per visit, in visit order. */
  lemma {:induction false} CollectedEntries(visits: seq<Visit>)
    requires Collect([], visits).Completed?
    ensures var entries := Collect([], visits).entries;
      && |entries| == |visits|
      && Paths(entries) == VisitPaths(visits)
      && (forall k :: 0 <= k < |visits| ==>
            visits[k].outcome.Examined? && entries[k] == Entry(visits[k].path, visits[k].outcome.missing))
  {
    var entries := Collect([], visits).entries;
    forall k | 0 <= k < |visits|
      ensures visits[k].outcome.Examined? && entries[k] == Entry(visits[k].path, visits[k].outcome.missing)
    {
      CollectEntry([], visits, k);
    }
    assert Paths(entries) == VisitPaths(visits);
  }

  /** A completed scan holds one entry per file, in file order. */
  lemma {:induction false} CompletedScanEntries(files: seq<SourceFile>)
    requires Scan(files).Completed?
    ensures var entries := Scan(files).entries;
      && |entries| == |files|
      && Paths(entries) == FilePaths(files)
      && (forall k :: 0 <= k < |files| ==>
            (ExamineFile(files[k].load).Examined? &&
             entries[k] == Entry(files[k].path, ExamineFile(files[k].load).missing)))
  {
    var visits := Visits(files);
    VisitsByIndex(files);
    CollectedEntries(visits);
    VisitPathsAreFilePaths(files);
  }

  lemma {:induction false} FindingsByIndex(entries: seq<Entry>, path: string, p: string)
    ensures (path, p) in Findings(entries) <==>
      exists k :: 0 <= k < |entries| && entries[k].path == path && p in entries[k].missing
  {
    if (path, p) in Findings(entries) {
      var x :| x in entries && x.path == path && p in x.missing;
      var k :| 0 <= k < |entries| && entries[k] == x;
    }
  }

  /** The findings of a completed scan are the missing prefixes of its files. */
  lemma {:induction false} FindingsOfScan(files: seq<SourceFile>, path: string, p: string)
    requires Scan(files).Completed?
    ensures (path, p) in Findings(Scan(files).entries) <==>
      exists k :: 0 <= k < |files| && files[k].path == path &&
                  ExamineFile(files[k].load).Examined? && p in ExamineFile(files[k].load).missing
  {
    var entries := Scan(files).entries;
    CompletedScanEntries(files);
    FindingsByIndex(entries, path, p);
  }

  /** A completed scan's entries have distinct paths and duplicate-free lists. */
  lemma {:induction false} CompletedEntriesAreDistinct(files: seq<SourceFile>)
    requires Scan(files).Completed?
    ensures var entries := Scan(files).entries;
      && NoDuplicates(Paths(entries))
      && (forall k :: 0 <= k < |entries| ==> NoDuplicates(entries[k].missing))
  {
    var entries := Scan(files).entries;
    ScanCompletes(files);
    CompletedScanEntries(files);
    forall k | 0 <= k < |entries| ensures NoDuplicates(entries[k].missing) {
      assert ExamineFile(files[k].load).Examined?;
    }
  }

  /** A completed scan reports every (file, missing prefix) pair on exactly
      one error line. */
  lemma {:induction false} ReportHasOneLinePerFinding(files: seq<SourceFile>)
    ensures Run(files).Reported? ==>
      var findings := Findings(Scan(files).entries); var lines := Run(files).report.errorLines;
      && NoDuplicates(findings)
      && |lines| == |findings|
      && (forall k :: 0 <= k < |lines| ==> lines[k] == ErrorLine(findings[k].0, findings[k].1))
  {
    if Run(files).Reported? {
      var entries := Scan(files).entries;
      CompletedEntriesAreDistinct(files);
      FindingsAreDistinct(entries);
    }
  }

  /** The whole run: the report when the scan completes, nothing otherwise. */
  datatype RunOutcome = Reported(report: Report) | Crashed(path: string, cause: AbortCause)

  function Run(files: seq<SourceFile>): (r: RunOutcome)
    ensures r.Crashed? ==> r.path in FilePaths(files)
    ensures r.Reported? ==> r.report.filesWithFindings <= |files|
  {
    match Scan(files)
    case Completed(entries) => Reported(ReportOf(entries))
    case Aborted(path, cause) => Crashed(path, cause)
  }

  /** A run reports exactly when no path repeats and no file lets an
      exception escape; otherwise it crashes, naming one of the files. */
  lemma {:induction false} RunReports(files: seq<SourceFile>)
    ensures Run(files).Reported? <==> NoDuplicates(FilePaths(files)) && AllExamined(files)
  {
    ScanCompletes(files);
  }
}
