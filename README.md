# Banner transform and project-checker scanner, verified in Dafny

This project models the two pieces of string logic in a repository of student
data dashboards.

- **Banner tool** (`_banner/banner.py`). `apply_banner` finds the end of a
  page's `---` front matter and splices a fixed Quarto include block (`BANNER`)
  in after it. A page that already holds the block is skipped.
  `remove_banner` deletes every occurrence of the block with `str.replace`.
  Each is modelled as a pure `string -> string` function on a page's text.
- **Project checker** (`project_checker.py`). The checker walks `Projects`,
  keeps the `.qmd` files found in its subdirectories, and runs two cursor loops
  over each file's text. The first cuts out every `pd.read…)` fragment. The
  second cuts out every `import…` fragment up to the end of its line. Each
  fragment is executed and gets one coloured status line. The loops are
  modelled as Dafny methods with loop invariants, proved against a pure list of
  occurrences.

The Python primitives the code relies on are written out with Python's edge
cases in `pystr.dfy`:

- `str.find` returns -1 on a miss.
- Slicing clamps its indices and counts negative ones from the end.
- `str.replace` replaces the leftmost non-overlapping occurrences.

Files:

- `pystr.dfy` (module `PyStr`): `Find`, `PySlice`, `ReplaceAll`, `Count` and
  their lemmas.
- `banner.dfy` (module `Banner`): `BANNER`, `InsertIndex`, `Apply`, `Remove`,
  plus idempotence and round-trip proofs.
- `checker.dfy` (module `Checker`): the file filter, the fragment cutters, the
  status lines, the two scan loops and the per-file report.

Main results:

- `Banner.RemoveApplyRoundTrip`: for every page `apply` does not skip,
  `remove` restores the page exactly. The general lemma
  `Banner.RemoveAfterApply` needs the condition "no occurrence of `BANNER`
  starts before the insertion point in the applied text". For this particular
  `BANNER` that condition always holds. The reason: the block overlaps itself
  only by its `"\n\n"` border, and the insertion point is at most 3 or lies
  one or two characters past a `-` of the front-matter marker.
- `Checker.ScanLoads` and `Checker.ScanImports`: each loop visits exactly the
  occurrences at index 1 or later, in increasing order. It prints exactly one
  status line per occurrence, in that order. For the load loop this assumes
  every `os.chdir(path)` succeeds. In the program, once one load has reached
  `exec` no further load does: the run either stops or checks nothing more
  (see "## Left out").

Apply followed by remove restores every page that apply does not skip
(`Banner.RemoveApplyRoundTrip`). A page that already holds the block is
skipped by `apply`, and `remove` then deletes that existing block, so the page
is not restored (`Banner.SkippedNotRestored`).

## Model

| member | source | states |
|---|---|---|
| `PyStr.FindSpec` | project_checker.py:31 | (specifies `Find`) `find` gives -1 exactly when `pat` does not occur at or after `from`; otherwise it gives the first index at or after `from` where `pat` occurs |
| `PyStr.PySlice` | project_checker.py:38 | a slice has length `hi - lo` (or 0) after both bounds are clamped to `[0, len]`, with negative bounds counted from the end; its characters are `s[lo..]` |
| `PyStr.SliceJoin` | _banner/banner.py:28 | `s[:i] + s[i:] == s` for every integer `i`, negative or past the end |
| `PyStr.ReplaceAllLength` | _banner/banner.py:50 | (specifies `ReplaceAll` and `Count`) `replace` changes the length by `Count * (len(rep) - len(pat))`, where `Count` is the number of leftmost non-overlapping occurrences |
| `PyStr.CountZeroIff` | _banner/banner.py:50 | `replace` replaces nothing exactly when `pat` does not occur |
| `PyStr.ReplaceAllNoMatch` | _banner/banner.py:50 | a text with no occurrence of `pat` is returned unchanged |
| `PyStr.ReplaceAllSkip` | _banner/banner.py:50 | if no occurrence starts before `k`, the first `k` characters are copied and replacing resumes at `k` |
| `PyStr.ReplaceSplice` | _banner/banner.py:28-50 | replacing in `x + pat + y` deletes exactly the spliced `pat` when no occurrence starts inside `x` and `y` has none |
| `Banner.InsertIndex` | _banner/banner.py:26 | the computed index is 3, or it lies four past the start of a `---` |
| `Banner.Apply` | _banner/banner.py:21-28 | a page that contains `BANNER` is unchanged; otherwise the result is one `BANNER` longer, keeps the text before the split point, has `BANNER` at the split point and the rest of the text after it; the result always contains `BANNER` |
| `Banner.Remove` | _banner/banner.py:50 | a page without `BANNER` is unchanged; otherwise it gets shorter, by exactly `Count * len(BANNER)` |
| `Banner.InsertIndexTwoMarkers` | _banner/banner.py:26 | with a first `---` at `first` and the next `---` at or after `first + 3` at `second`, the index is `second + 4` |
| `Banner.InsertIndexFewerMarkers` | _banner/banner.py:26 | with fewer than two non-overlapping `---` the index is 3, clamped to the page's length |
| `Banner.ApplyMarkerAtEnd` | _banner/banner.py:26-28 | when the second `---` ends the page, the clamped slice makes `apply` append `BANNER` |
| `Banner.ApplyIdempotent` | _banner/banner.py:21-28 | `apply(apply(c)) == apply(c)` |
| `Banner.ApplySplice` | _banner/banner.py:28 | a non-skipped apply is `c[:p] + BANNER + c[p:]`, where `p` is the clamped index |
| `Banner.RemoveAfterApply` | _banner/banner.py:28-50 | remove undoes a non-skipped apply whenever no occurrence of `BANNER` in the applied text starts before the split point |
| `Banner.BannerFacts` | _banner/banner.py:3 | `BANNER` has 42 characters; its only newlines are its two-character borders; it has `}}` just before the closing border |
| `Banner.SplitAfterDash` | _banner/banner.py:26-28 | the split point is at most 3, or one of the two characters before it is a `-` |
| `Banner.NoStraddle` | _banner/banner.py:3 | no occurrence of `BANNER` can start inside a prefix that ends just after a `-` and run into the inserted copy |
| `Banner.NoEarlyBanner` | _banner/banner.py:21-28 | in a non-skipped apply, no occurrence of `BANNER` starts before the inserted one |
| `Banner.SkippedNotRestored` | _banner/banner.py:21-50 | a page that already contains `BANNER` is not restored by `remove(apply(c))`: apply skips it and remove deletes its block |
| `Banner.RemoveApplyRoundTrip` | _banner/banner.py:21-50 | `remove(apply(c)) == c` for every page `c` without `BANNER` |
| `Checker.IsCheckedFile` | project_checker.py:14-19 | a file is checked exactly when its directory is not `Projects` itself and its name ends in `.qmd` |
| `Checker.OccurrencesExact` | project_checker.py:29-34 | the occurrence list holds every start index at or after `from`, each once, in strictly increasing order |
| `Checker.FindNext` | project_checker.py:30-34 | the occurrences from `from` on are empty when `find` gives -1, and otherwise the found index followed by the occurrences after it |
| `Checker.ScanStep` | project_checker.py:30-34 | one search step keeps the scan invariant: a hit moves from the remaining occurrences to the visited ones, and a miss means every occurrence has been visited |
| `Checker.ScanSkipsIndexZero` | project_checker.py:29-31 | an occurrence at index 0 is never visited, because the first search starts at 1 |
| `Checker.LoadFragmentShape` | project_checker.py:36-38 | (specifies `LoadFragment`) a load fragment runs from its start through the first `)` at or after it, inclusive, and holds no earlier `)`; it is empty exactly when no `)` follows its start |
| `Checker.LoadFragmentPrefix` | project_checker.py:36-38 | a non-empty fragment cut at an occurrence of `pd.read` begins with `pd.read` |
| `Checker.ImportFragmentShape` | project_checker.py:60-62 | (specifies `ImportFragment`) an import fragment runs up to, not including, the next newline and contains none; with no newline it stops one character before the end of the source |
| `Checker.ImportFragmentPrefix` | project_checker.py:60-62 | a fragment cut at an occurrence of `import` begins with `import`, unless no newline follows and the word ends the source |
| `Checker.ImportAtEndTruncated` | project_checker.py:60-62 | an `import` ending a source with no trailing newline is run as `impor` |
| `Checker.LoadStatus` | project_checker.py:42-49 | the line starts with green `DATA OK` exactly when the load succeeded, and then ends by echoing the fragment and `)`; it is the red `BAD DATA PATH` line exactly on `FileNotFoundError`; it starts with `Encountered ` exactly on any other exception, followed by that exception's message |
| `Checker.ImportStatus` | project_checker.py:64-71 | the line starts with green `REQS OK` exactly when the import succeeded, and then ends by echoing the fragment and `)`; it is the red `BAD REQS` line exactly on `ModuleNotFoundError`; it starts with `Encountered '` exactly on any other exception, followed by that exception's message and a closing `'` |
| `Checker.LoadStatusInjective` | project_checker.py:44-49 | a load status line determines the outcome, and a `DATA OK` line also determines the fragment |
| `Checker.ImportStatusInjective` | project_checker.py:66-71 | an import status line determines the outcome, and a `REQS OK` line also determines the fragment |
| `Checker.ScanLoads` | project_checker.py:29-49 | the load loop terminates; it visits exactly the `pd.read` occurrences at index 1 or later, in increasing order; it prints one status line per visit, for that occurrence's fragment and outcome |
| `Checker.ScanImports` | project_checker.py:53-71 | the import loop terminates; it visits exactly the `import` occurrences at index 1 or later (including those in `from x import y`), in increasing order; it prints one status line per visit |
| `Checker.CheckFile` | project_checker.py:14-71 | a skipped file prints nothing; a checked file prints a blank line, its heading (`Heading`), the load report and the import report |

## Left out

- Running fragments with `exec` (project_checker.py:43,65) is not modelled. Its result depends on the environment. The outcome is a parameter `run: string -> Outcome` with three cases: `Ok`, `NotFound` (`FileNotFoundError` for loads, `ModuleNotFoundError` for imports) and `Other(message)` (any other `Exception`, with `str(e)` as the message).
- Filesystem and console I/O are not modelled: `os.walk`, `os.listdir`, `os.path.isfile`, `open`/`read`/`write` and `print`. Printed lines are returned as a sequence of strings instead. The ANSI colour codes are kept as literal text.
- The file loops of `apply_banner` and `remove_banner` (_banner/banner.py:10-19,39-53) are left out, and so is the `WARNING` line printed for a skipped page. Only the per-page text transform is modelled.
- Exceptions that derive only from `BaseException` and not from `Exception` (for example `SystemExit` from a module that calls `sys.exit()` while being imported, or `KeyboardInterrupt`) are not caught at project_checker.py:46,68; they end the run. The model has no outcome for them.
- Checker.ScanLoads: models the load loop as if every `os.chdir(path)` (project_checker.py:40) succeeds, which the program does not do. `path` is relative (it comes from `os.walk("Projects")`), and the `chdir` sits outside the `try` (project_checker.py:42-49). Once a load has changed directory: a second load in the same file raises an uncaught `FileNotFoundError` that ends the run (unless a directory of that relative name happens to exist below); the relative `open` (project_checker.py:21) of the next `.qmd` file in the same directory fails the same way; and when the `for` header (project_checker.py:10) resumes `os.walk`, it lists the next directory relative to the changed directory before `os.chdir(root)` (project_checker.py:11) runs, so that listing fails and `os.walk` (with no `onerror`) silently drops every remaining directory. So, apart from that nested-name case, at most one load per run reaches `exec`. The working directory is file-system state and is not modelled.
- Checker.CheckFile: promises the full load report and import report for every checked file, under the same assumption that every `os.chdir(path)` succeeds. In the program a file with two or more loads at index 1 or later ends the run inside the load loop, before its import report is printed, and files after the first executed load are not reached or not listed (see the `Checker.ScanLoads` line above).
- PyStr.Find: takes only a non-negative start. Python's negative start is not modelled, because every call site passes a start of at least 0.
- PyStr.ReplaceAll: requires a non-empty pattern. Python's behaviour for an empty pattern is not modelled, because only `BANNER` is ever replaced.
- `insert_redirects.py` is not part of this model. It is a substring test on `os.path.join` output, wrapped around file overwrites.
- The dashboard scripts under `Projects/` are not part of this model. They are linear pandas and plotting calls with floating-point filtering.
