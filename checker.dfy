/**
 * The project checker's per-file logic: which files it checks, the two
 * cursor loops that cut `pd.read…)` and `import…` fragments out of a page's
 * text, and the status line printed for each fragment once it has been run.
 * Running a fragment (`exec`) is not modelled: its outcome is a parameter.
 */
module Checker {
  import opened PyStr

  /** What `exec` of a fragment ended in: no exception, the one exception the loop names, or any other. */
  datatype Outcome = Ok | NotFound | Other(message: string)

  const LOAD: string := "pd.read"
  const IMPORT: string := "import"
  const CLOSE: string := ")"
  const NEWLINE: string := "\n"
  const TOP: string := "Projects"
  const EXTENSION: string := ".qmd"

  const ESC: string := "\U{1B}"
  const GREEN: string := ESC + "[32m"
  const RED: string := ESC + "[31m"
  const BOLD: string := ESC + "[1m"
  const RESET: string := ESC + "[0m"

  /** Whether the walk over `Projects` checks `filename` found in directory `path`. */
  function IsCheckedFile(path: string, filename: string): (b: bool)
    ensures b <==> path != TOP && |filename| >= 4 && filename[|filename| - 4..] == EXTENSION
  {
    if path == TOP then false
    else PySlice(filename, -4, |filename|) == EXTENSION
  }

  /**
   * Every start index `k >= from` of `pat` in `s`, in increasing order: the
   * reference the scan loops are proved against.
   */
  function Occurrences(s: string, pat: string, from: nat): seq<nat>
    decreases |s| - from
  {
    if from + |pat| > |s| then []
    else if IsAt(s, pat, from) then [from] + Occurrences(s, pat, from + 1)
    else Occurrences(s, pat, from + 1)
  }

  /**
   * `Occurrences` lists exactly the start indices `>= from` of `pat`, each
   * once, in strictly increasing order.
   */
  lemma {:induction false} OccurrencesExact(s: string, pat: string, from: nat)
    ensures var r := Occurrences(s, pat, from);
            (forall a :: 0 <= a < |r| ==> from <= r[a] && IsAt(s, pat, r[a])) &&
            (forall k :: from <= k && IsAt(s, pat, k) ==> k in r) &&
            (forall a, b :: 0 <= a < b < |r| ==> r[a] < r[b])
    decreases |s| - from
  {
    if from + |pat| <= |s| {
      OccurrencesExact(s, pat, from + 1);
    }
  }

  /**
   * A scan visits every occurrence except one at index 0: the first search
   * already starts at index 1.
   */
  lemma ScanSkipsIndexZero(s: string, pat: string)
    requires pat != [] && IsAt(s, pat, 0)
    ensures Occurrences(s, pat, 0) == [0] + Occurrences(s, pat, 1)
    ensures 0 !in Occurrences(s, pat, 1)
  {
    OccurrencesExact(s, pat, 1);
  }

  /** One `find` step of a scan loop: it yields the next occurrence, or -1 when none is left. */
  lemma {:induction false} FindNext(s: string, pat: string, from: nat)
    ensures var r := Find(s, pat, from);
            Occurrences(s, pat, from) == if r < 0 then [] else [r] + Occurrences(s, pat, r + 1)
    decreases |s| - from
  {
    if from + |pat| <= |s| && s[from..from + |pat|] != pat {
      FindNext(s, pat, from + 1);
    }
  }

  /**
   * The scan invariant after one `find` step: a hit moves from the
   * remaining occurrences to the visited ones, and a miss means all of
   * them have been visited.
   */
  lemma ScanStep(s: string, pat: string, visited: seq<nat>, cursor: nat, next: int)
    requires Occurrences(s, pat, 1) == visited + Occurrences(s, pat, cursor)
    requires next == Find(s, pat, cursor)
    ensures next == -1 ==> visited == Occurrences(s, pat, 1)
    ensures next >= 0 ==> Occurrences(s, pat, 1) == (visited + [next]) + Occurrences(s, pat, next + 1)
  {
    FindNext(s, pat, cursor);
    if next >= 0 {
      ConcatAssoc(visited, [next], Occurrences(s, pat, next + 1));
    }
  }

  /** A one-character pattern occurs exactly where that character stands. */
  lemma IsAtChar(s: string, c: char)
    ensures forall k :: IsAt(s, [c], k) <==> 0 <= k < |s| && s[k] == c
  {
    forall k | 0 <= k < |s| ensures s[k..k + 1] == [s[k]] {
    }
  }

  /**
   * The text `exec` receives for a load found at `start`:
   * `source[start:source.find(")", start) + 1]`.
   */
  function LoadFragment(source: string, start: nat): string
  {
    PySlice(source, start, Find(source, CLOSE, start) + 1)
  }

  /**
   * A load fragment runs from its start through the first `)` at or after
   * it, inclusive; with no `)` left the end index is 0 and the fragment is
   * empty.
   */
  lemma LoadFragmentShape(source: string, start: nat)
    ensures var r := LoadFragment(source, start);
            (r == [] <==> forall k :: start <= k < |source| ==> source[k] != ')') &&
            (r != [] ==>
               start + |r| <= |source| && r == source[start..start + |r|] &&
               r[|r| - 1] == ')' && forall k :: 0 <= k < |r| - 1 ==> r[k] != ')')
  {
    var e := Find(source, CLOSE, start);
    FindSpec(source, CLOSE, start);
    IsAtChar(source, ')');
    if e >= 0 {
      assert LoadFragment(source, start) == source[start..e + 1];
    }
  }

  /** Cut at an occurrence of `pd.read`, a non-empty load fragment begins with it. */
  lemma LoadFragmentPrefix(source: string, start: nat)
    requires IsAt(source, LOAD, start)
    ensures LoadFragment(source, start) != [] ==> IsAt(LoadFragment(source, start), LOAD, 0)
  {
    var e := Find(source, CLOSE, start);
    FindSpec(source, CLOSE, start);
    IsAtChar(source, ')');
    if e >= 0 {
      assert source[start..start + |LOAD|] == LOAD;
      forall k | start <= k < start + |LOAD| ensures source[k] != ')' {
        assert source[k] == LOAD[k - start];
      }
      assert LoadFragment(source, start)[..|LOAD|] == source[start..start + |LOAD|];
    }
  }

  /** No newline at or after `start`. */
  predicate NoNewlineFrom(source: string, start: nat)
  {
    forall k :: start <= k < |source| ==> source[k] != '\n'
  }

  /**
   * The text `exec` receives for an import found at `start`:
   * `source[start:source.find("\n", start)]`.
   */
  function ImportFragment(source: string, start: nat): string
  {
    PySlice(source, start, Find(source, NEWLINE, start))
  }

  /**
   * An import fragment runs from its start up to, not including, the next
   * newline. With no newline left the end index is -1, which cuts off the
   * last character of the source.
   */
  lemma ImportFragmentShape(source: string, start: nat)
    requires start <= |source|
    ensures var r := ImportFragment(source, start);
            start + |r| <= |source| && r == source[start..start + |r|] &&
            (forall k :: 0 <= k < |r| ==> r[k] != '\n') &&
            (!NoNewlineFrom(source, start) ==> start + |r| < |source| && source[start + |r|] == '\n') &&
            (NoNewlineFrom(source, start) && start < |source| ==> |r| == |source| - 1 - start)
  {
    var e := Find(source, NEWLINE, start);
    FindSpec(source, NEWLINE, start);
    IsAtChar(source, '\n');
    if e < 0 {
      if start < |source| {
        assert ImportFragment(source, start) == source[start..|source| - 1];
      }
    } else {
      assert ImportFragment(source, start) == source[start..e];
    }
  }

  /**
   * Cut at an occurrence of `import`, the fragment begins with the whole
   * word unless no newline follows and the word ends the source.
   */
  lemma ImportFragmentPrefix(source: string, start: nat)
    requires IsAt(source, IMPORT, start)
    requires !NoNewlineFrom(source, start) || start + |IMPORT| < |source|
    ensures IsAt(ImportFragment(source, start), IMPORT, 0)
  {
    var r := ImportFragment(source, start);
    ImportFragmentShape(source, start);
    assert source[start..start + |IMPORT|] == IMPORT;
    if !NoNewlineFrom(source, start) {
      forall k | start <= k < start + |IMPORT| ensures source[k] != '\n' {
        assert source[k] == IMPORT[k - start];
      }
    }
    assert r[..|IMPORT|] == source[start..start + |IMPORT|];
  }

  /**
   * An `import` that ends a source without a trailing newline is run as
   * `impor`: the -1 end index drops its last letter.
   */
  lemma ImportAtEndTruncated(source: string)
    requires |source| >= |IMPORT| && IsAt(source, IMPORT, |source| - |IMPORT|)
    ensures ImportFragment(source, |source| - |IMPORT|) == "impor"
  {
    var start := |source| - |IMPORT|;
    assert NoNewlineFrom(source, start) by {
      assert source[start..] == IMPORT;
      forall k | start <= k < |source| ensures source[k] != '\n' {
        assert source[k] == IMPORT[k - start];
      }
    }
    ImportFragmentShape(source, start);
    var r := ImportFragment(source, start);
    assert |r| == |IMPORT| - 1;
    assert r == source[start..|source| - 1];
    assert source[start..|source| - 1] == source[start..][..|IMPORT| - 1];
    assert IMPORT[..|IMPORT| - 1] == "impor";
  }

  /** The line printed for a load fragment, given how running it ended. */
  function LoadStatus(fragment: string, outcome: Outcome): (line: string)
    ensures IsAt(line, GREEN + "DATA OK", 0) <==> outcome.Ok?
    ensures outcome.Ok? ==> |line| > |fragment| && line[|line| - |fragment| - 1..] == fragment + ")"
    ensures line == RED + "BAD DATA PATH" + RESET <==> outcome.NotFound?
    ensures IsAt(line, "Encountered ", 0) <==> outcome.Other?
    ensures outcome.Other? ==> |line| >= 12 && line[12..] == outcome.message
  {
    match outcome
    case Ok =>
      var prefix := GREEN + "DATA OK" + RESET + "\t (";
      var line := prefix + fragment + ")";
      assert line[..12] == GREEN + "DATA OK";
      assert line[3] == '2' && line[0] == ESC[0];
      assert line[|prefix|..] == fragment + ")";
      line
    case NotFound =>
      var line := RED + "BAD DATA PATH" + RESET;
      assert line[3] == '1' && line[0] == ESC[0];
      line
    case Other(message) =>
      var line := "Encountered " + message;
      assert line[..12] == "Encountered ";
      assert line[0] == 'E';
      line
  }

  /** The line printed for an import fragment, given how running it ended. */
  function ImportStatus(fragment: string, outcome: Outcome): (line: string)
    ensures IsAt(line, GREEN + "REQS OK", 0) <==> outcome.Ok?
    ensures outcome.Ok? ==> |line| > |fragment| && line[|line| - |fragment| - 1..] == fragment + ")"
    ensures line == RED + "BAD REQS" + RESET <==> outcome.NotFound?
    ensures IsAt(line, "Encountered '", 0) <==> outcome.Other?
    ensures outcome.Other? ==> |line| >= 14 && line[13..|line| - 1] == outcome.message && line[|line| - 1] == '\''
  {
    match outcome
    case Ok =>
      var prefix := GREEN + "REQS OK" + RESET + "\t (";
      var line := prefix + fragment + ")";
      assert line[..12] == GREEN + "REQS OK";
      assert line[3] == '2' && line[0] == ESC[0];
      assert line[|prefix|..] == fragment + ")";
      line
    case NotFound =>
      var line := RED + "BAD REQS" + RESET;
      assert line[3] == '1' && line[0] == ESC[0];
      line
    case Other(message) =>
      var line := "Encountered '" + message + "'";
      assert line[..13] == "Encountered '";
      assert line[13..|line| - 1] == message;
      assert line[0] == 'E';
      line
  }

  /**
   * A load status line determines how running the fragment ended, and a
   * `DATA OK` line also determines the fragment it echoes.
   */
  lemma LoadStatusInjective(f1: string, o1: Outcome, f2: string, o2: Outcome)
    requires LoadStatus(f1, o1) == LoadStatus(f2, o2)
    ensures o1 == o2
    ensures o1.Ok? ==> f1 == f2
  {
    var line := LoadStatus(f1, o1);
    if o1.Ok? {
      var prefix := GREEN + "DATA OK" + RESET + "\t (";
      assert line == prefix + f1 + ")" == prefix + f2 + ")";
      assert f1 == line[|prefix|..|line| - 1] == f2;
    } else if o1.Other? {
      assert line == "Encountered " + o1.message == "Encountered " + o2.message;
      assert o1.message == line[12..] == o2.message;
    }
  }

  /**
   * An import status line determines how running the fragment ended, and a
   * `REQS OK` line also determines the fragment it echoes.
   */
  lemma ImportStatusInjective(f1: string, o1: Outcome, f2: string, o2: Outcome)
    requires ImportStatus(f1, o1) == ImportStatus(f2, o2)
    ensures o1 == o2
    ensures o1.Ok? ==> f1 == f2
  {
    var line := ImportStatus(f1, o1);
    if o1.Ok? {
      var prefix := GREEN + "REQS OK" + RESET + "\t (";
      assert line == prefix + f1 + ")" == prefix + f2 + ")";
      assert f1 == line[|prefix|..|line| - 1] == f2;
    } else if o1.Other? {
      assert line == "Encountered '" + o1.message + "'" == "Encountered '" + o2.message + "'";
      assert o1.message == line[13..|line| - 1] == o2.message;
    }
  }

  /** The line printed for the load found at `start`. */
  function LoadLine(source: string, run: string -> Outcome, start: nat): string
  {
    var fragment := LoadFragment(source, start);
    LoadStatus(fragment, run(fragment))
  }

  /** The line printed for the import found at `start`. */
  function ImportLine(source: string, run: string -> Outcome, start: nat): string
  {
    var fragment := ImportFragment(source, start);
    ImportStatus(fragment, run(fragment))
  }

  /** The lines the load loop prints for `source`, one per visited occurrence. */
  function LoadReport(source: string, run: string -> Outcome): seq<string>
  {
    var starts := Occurrences(source, LOAD, 1);
    seq(|starts|, j requires 0 <= j < |starts| => LoadLine(source, run, starts[j]))
  }

  /** The lines the import loop prints for `source`, one per visited occurrence. */
  function ImportReport(source: string, run: string -> Outcome): seq<string>
  {
    var starts := Occurrences(source, IMPORT, 1);
    seq(|starts|, j requires 0 <= j < |starts| => ImportLine(source, run, starts[j]))
  }

  /** Lines collected one per occurrence, in order, are the load report. */
  lemma LoadReportFrom(source: string, run: string -> Outcome, starts: seq<nat>, lines: seq<string>)
    requires starts == Occurrences(source, LOAD, 1) && |lines| == |starts|
    requires forall j :: 0 <= j < |starts| ==> lines[j] == LoadLine(source, run, starts[j])
    ensures lines == LoadReport(source, run)
  {
  }

  /** Lines collected one per occurrence, in order, are the import report. */
  lemma ImportReportFrom(source: string, run: string -> Outcome, starts: seq<nat>, lines: seq<string>)
    requires starts == Occurrences(source, IMPORT, 1) && |lines| == |starts|
    requires forall j :: 0 <= j < |starts| ==> lines[j] == ImportLine(source, run, starts[j])
    ensures lines == ImportReport(source, run)
  {
  }

  /** The body of the load loop for the hit at `loadStart`: cut the fragment, run it, report it. */
  method RunLoad(source: string, run: string -> Outcome, loadStart: nat) returns (line: string)
    ensures line == LoadLine(source, run, loadStart)
  {
    var loadEnd := Find(source, CLOSE, loadStart) + 1;
    var loadCommand := PySlice(source, loadStart, loadEnd);
    var outcome := run(loadCommand);
    line := LoadStatus(loadCommand, outcome);
  }

  /** The body of the import loop for the hit at `importStart`. */
  method RunImport(source: string, run: string -> Outcome, importStart: nat) returns (line: string)
    ensures line == ImportLine(source, run, importStart)
  {
    var importEnd := Find(source, NEWLINE, importStart);
    var importCommand := PySlice(source, importStart, importEnd);
    var outcome := run(importCommand);
    line := ImportStatus(importCommand, outcome);
  }

  /**
   * The load loop: each search starts one past the previous hit (so a hit
   * at index 0 is never visited), and each hit's fragment is run and
   * reported.
   */
  method ScanLoads(source: string, run: string -> Outcome) returns (starts: seq<nat>, lines: seq<string>)
    ensures starts == Occurrences(source, LOAD, 1)
    ensures lines == LoadReport(source, run)
  {
    starts, lines := [], [];
    var loadStart: int := 0;
    while true
      invariant 0 <= loadStart <= |source|
      invariant Occurrences(source, LOAD, 1) == starts + Occurrences(source, LOAD, loadStart + 1)
      invariant |lines| == |starts|
      invariant forall j :: 0 <= j < |starts| ==> lines[j] == LoadLine(source, run, starts[j])
      decreases |source| - loadStart
    {
      var next := Find(source, LOAD, loadStart + 1);
      ScanStep(source, LOAD, starts, loadStart + 1, next);
      loadStart := next;
      if loadStart == -1 {
        break;
      }
      var line := RunLoad(source, run, loadStart);
      lines := lines + [line];
      starts := starts + [loadStart];
    }
    LoadReportFrom(source, run, starts, lines);
  }

  /**
   * The import loop: the same cursor discipline, with fragments cut at the
   * next newline.
   */
  method ScanImports(source: string, run: string -> Outcome) returns (starts: seq<nat>, lines: seq<string>)
    ensures starts == Occurrences(source, IMPORT, 1)
    ensures lines == ImportReport(source, run)
  {
    starts, lines := [], [];
    var importStart: int := 0;
    while true
      invariant 0 <= importStart <= |source|
      invariant Occurrences(source, IMPORT, 1) == starts + Occurrences(source, IMPORT, importStart + 1)
      invariant |lines| == |starts|
      invariant forall j :: 0 <= j < |starts| ==> lines[j] == ImportLine(source, run, starts[j])
      decreases |source| - importStart
    {
      var next := Find(source, IMPORT, importStart + 1);
      ScanStep(source, IMPORT, starts, importStart + 1, next);
      importStart := next;
      if importStart == -1 {
        break;
      }
      var line := RunImport(source, run, importStart);
      lines := lines + [line];
      starts := starts + [importStart];
    }
    ImportReportFrom(source, run, starts, lines);
  }

  /** The heading printed before a checked file's results. */
  function Heading(path: string, filename: string): string
  {
    "Checking " + BOLD + path + "/" + filename + RESET + "..."
  }

  /**
   * Everything printed for one file the walk finds: nothing for a skipped
   * file, otherwise a blank line, the heading, the load report and the
   * import report.
   */
  method CheckFile(path: string, filename: string, source: string,
                   runLoad: string -> Outcome, runImport: string -> Outcome)
    returns (lines: seq<string>)
    ensures !IsCheckedFile(path, filename) ==> lines == []
    ensures IsCheckedFile(path, filename) ==>
              lines == ["", Heading(path, filename)] + LoadReport(source, runLoad) + ImportReport(source, runImport)
  {
    if path == TOP {
      return [];
    }
    if PySlice(filename, -4, |filename|) != EXTENSION {
      return [];
    }
    var _, loads := ScanLoads(source, runLoad);
    var _, imports := ScanImports(source, runImport);
    lines := ["", Heading(path, filename)] + loads + imports;
  }
}
