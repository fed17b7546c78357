# nuclei-template-search, modelled in Dafny

`nuclei-search.py` is a small command-line tool. It searches a folder of
nuclei YAML templates for a term, ignoring case, and prints the matching
paths as a numbered, indented list. The user then types numbers to view
templates, or `0` to quit. This project models the logic of that tool and
proves properties of the model:

- the template filter (`search_templates`);
- the result-line formatter (`display_results`);
- the interactive selection loop;
- the rule that picks the template folder.

The file system, the terminal and the YAML and highlighting libraries are
replaced by plain inputs:

- the directory walk is a sequence of `(root, files)` records, and each
  file record carries the text a read of it returns;
- `os.path.exists` is a set of existing paths;
- the configuration lookup is the folder it returns;
- the user's answers are a sequence of `Number(k)` / `NotANumber` values.

Files and modules:

- `text.dfy` (`Text`): ASCII `lower()`, `endswith()` and the substring test `in`.
- `paths.dfy` (`Paths`): the POSIX separator, `os.path.join`, `split(os.sep)` and `os.sep.join`, with both split/join round trips.
- `search.dfy` (`Scanner`): the filter as a nested loop (`SearchTemplates` over directories, `ScanDir` over one directory's files), proved equal to the reference function `Search`. The facts about `Search`: it keeps exactly the matching files, in walk order, each at most once; the term's case does not matter; and a worked three-file example.
- `display.dfy` (`Display`): one `Line(number, indent, prefix, fileName)` per result.
- `selection.dfy` (`Selection`): the Selecting/Exited machine, its reply function, the loop as a method, and the fold `Run` that specifies it.
- `session.dfy` (`Session`): the `__main__` flow and the folder-override rule.

Three behaviours of the code are worth stating, because the model follows them:

- Line 59 uses Python's `or`, so an empty `--template-folder ""` is falsy and falls back to the configured folder.
- The reads at lines 34-35 do not catch read or decoding errors, so every walked file's content is readable text here.
- On an empty configuration file, line 17 raises. The configuration lookup is not part of this model.

## Model

| member | source | states |
|---|---|---|
| `Text.Lower` | nuclei-search.py:36 | lower-casing keeps the length, turns each upper-case ASCII letter into its own lower-case letter, and keeps every other character |
| `Text.LowerIdempotent` | nuclei-search.py:66 | lower-casing an already lower-cased term changes nothing |
| `Text.CaseVariantsIffSameLower` | nuclei-search.py:36 | two strings differ only in letter case exactly when they lower-case to the same string (both directions) |
| `Text.ContainsIffOccurs` | nuclei-search.py:36 | the left-to-right substring scan `Text.Contains`, which models `in`, succeeds exactly when the needle occurs at some position of the haystack |
| `Text.EndsWith` | nuclei-search.py:32 | `s.endswith(suffix)` holds exactly when the suffix is no longer than `s` and matches its last characters one by one |
| `Text.ContainsEmpty` | nuclei-search.py:36 | the empty term occurs in every content |
| `Paths.PathJoin` | nuclei-search.py:33 | the joined path ends with the file name; an absolute name replaces the directory; otherwise the result is `dir + name` exactly when `dir` is empty or ends in a separator, and `dir + "/" + name` otherwise |
| `Paths.Split` | nuclei-search.py:42 | splitting on the separator gives one more piece than there are separators, and no piece holds a separator |
| `Paths.Join` | nuclei-search.py:47 | joining one piece gives that piece; a join of n pieces holds at least n - 1 separators |
| `Paths.JoinSplit` | nuclei-search.py:42-47 | joining the split pieces rebuilds the original path |
| `Paths.SplitJoin` | nuclei-search.py:42-47 | splitting a join of separator-free pieces gives back those pieces |
| `Paths.JoinLast` | nuclei-search.py:47 | a join of two or more pieces is the join of all but the last, a separator, and the last piece |
| `Scanner.Matches` | nuclei-search.py:32-36 | a walked file matches exactly when its name ends in `.yaml` and the lower-cased term occurs at some position of its lower-cased content |
| `Scanner.Search` | nuclei-search.py:28-38 | the reference result: the k-th path is the joined path of the k-th matching walked file, and there are as many paths as matching files |
| `Scanner.SearchTemplates` | nuclei-search.py:28-38 | the nested loop over directories and files returns exactly `Search(term, walk)` |
| `Scanner.ScanDir` | nuclei-search.py:31-37 | the inner loop over one directory's files extends the paths kept so far by exactly the paths this directory's matching files add, in listing order |
| `Scanner.KeptStep` | nuclei-search.py:32-37 | one file adds its joined path when its name ends in `.yaml` and its lower-cased content contains the lower-cased term, and adds nothing otherwise |
| `Scanner.KeptAtIndices` | nuclei-search.py:29-38 | for the filter `Scanner.Kept`, which keeps the matching files in walk order: the k-th kept file is the walked file at the k-th match position, and there are as many kept files as match positions |
| `Scanner.MatchIndicesIncrease` | nuclei-search.py:29-38 | match positions lie inside the walk and increase strictly, so no walked file is taken twice |
| `Scanner.MatchIndicesIff` | nuclei-search.py:32-37 | a position is a match position exactly when its file ends in `.yaml` and its lower-cased content contains the lower-cased term |
| `Scanner.KeptAtMatchIndices` | nuclei-search.py:29-38 | the kept files are the files at strictly increasing positions, and a position is kept exactly when its file matches. So the result is a subsequence in walk order, with no file twice |
| `Scanner.SearchAtMatchIndices` | nuclei-search.py:28-38 | the k-th returned path is the joined path of the k-th matching walked file; matches are in walk order; a walked file is returned iff it ends in `.yaml` and its lower-cased content contains the lower-cased term |
| `Scanner.OnlyYamlReturned` | nuclei-search.py:32 | every returned path ends in `.yaml`, and no walked file whose name does not end in `.yaml` is returned |
| `Scanner.EmptyTermKeepsEveryYaml` | nuclei-search.py:36-37 | with the empty term, a walked file is returned exactly when its name ends in `.yaml` |
| `Scanner.KeptSameLowerTerm` | nuclei-search.py:36 | two terms with the same lower-cased form keep the same files |
| `Scanner.SearchCaseInsensitive` | nuclei-search.py:36 | every case variant of the term gives the same results |
| `Scanner.SearchLoweredTerm` | nuclei-search.py:66 | passing the lower-cased term, as the caller does, gives the same results as passing the raw term |
| `Scanner.TokenWalkMatches` | nuclei-search.py:32-36 | in the example folder, `x.yaml` and the upper-case `y.yaml` match "token123" and `z.txt` does not |
| `Scanner.TokenExample` | nuclei-search.py:28-38 | in that folder the search returns exactly `["t/a/x.yaml", "t/b/y.yaml"]`, in walk order |
| `Display.Spaces` | nuclei-search.py:43 | `" " * n` is n characters, all spaces |
| `Display.FormatLine` | nuclei-search.py:42-49 | a line carries its number; its indent is all spaces, one per separator in the path; the file name holds no separator and ends the path; the prefix ends in a separator, so the file name is the text after the last separator; if the path has a separator, prefix + file name rebuilds it, and otherwise the prefix is a lone separator |
| `Display.DisplayResults` | nuclei-search.py:40-49 | exactly one line per result, and line i (from 1) is numbered i and shows result i |
| `Selection.Respond` | nuclei-search.py:73-94 | `0` exits; `1..N` views result k - 1; a negative number or one above N is an invalid number; text that is not a number is invalid input, each as an if-and-only-if |
| `Selection.After` | nuclei-search.py:74-75 | only the exit reply leaves the Selecting state |
| `Selection.Run` | nuclei-search.py:71-94 | the fold over the answers gives at most one reply per answer; it ends in Exited exactly when its last reply is the exit |
| `Selection.SelectionLoop` | nuclei-search.py:71-94 | the loop's final state and trace of replies are those of the fold `Run` |
| `Selection.RunTraceResponds` | nuclei-search.py:71-94 | each reply in the trace is the reply to the answer at the same position |
| `Selection.RunExitsAtFirstZero` | nuclei-search.py:74-75 | a run ends in Exited exactly when some answer is `0`, and then the last answer read is the first `0` |
| `Selection.RunReadsAllUnlessExit` | nuclei-search.py:71-73 | a run that never exits reads every answer |
| `Selection.RunReplies` | nuclei-search.py:71-94 | one reply per answer read, each the reply to that answer; the run exits iff some answer is `0`, and then it stops at the first `0`; otherwise it reads every answer |
| `Selection.ZeroExits` | nuclei-search.py:74-75 | an answer of `0` always reaches Exited, whatever came before and whatever the results are |
| `Selection.InputsAfterExitIgnored` | nuclei-search.py:74-75 | answers after the exit are never read and change nothing |
| `Selection.SelectionBoundary` | nuclei-search.py:76 | with N results, `N` views the last result and `N + 1` is an invalid number |
| `Session.ResolveFolder` | nuclei-search.py:59 | a non-empty command-line folder is used; an absent or empty one falls back to the configured folder |
| `Session.OverrideIgnoresConfig` | nuclei-search.py:59 | with a non-empty override, the configured folder has no influence on the chosen folder |
| `Session.ExitStatus` | nuclei-search.py:61-73 | status 1 exactly when the folder is missing or the answers run out before a `0` (the uncaught error from `input()`); 0 exactly when nothing matched or the user answered `0` |
| `Session.ListedStatusZeroIffZeroAnswer` | nuclei-search.py:71-75 | a listed run ends with status 0 exactly when some answer is `0` |
| `Session.RunSession` | nuclei-search.py:59-96 | a run stops with FolderMissing exactly when the chosen folder does not exist. It reports no templates exactly when the folder exists and the search is empty, so an empty result never enters the loop. Otherwise it lists one line per result and runs the selection loop over those results |

## Left out

- The configuration lookup `get_template_folder` (lines 13-26): the file-existence checks, the YAML load and dump, the prompt and `expanduser` are file-system and console I/O. Its result is the `configured` parameter of `RunSession`. Because line 59's `or` short-circuits, the real lookup, with its prompt and its configuration write, runs only when no non-empty override is given. A parameter computed in advance does not capture that.
- The directory walk and the file reads (lines 30, 34-35): they are given as a sequence of directory records. The order of that sequence is the walk order. The sub-directory lists that `os.walk` also yields are dropped, because they only steer the walk.
- Read and decoding errors: the source does not catch them, so the model has no "unreadable file" case.
- Viewing a template (lines 77-90): reading, YAML parsing, re-serialising and highlighting call libraries outside this model. Viewing is the opaque action `View(path)`, so the parse/dump round trip is not modelled. Any `ValueError` raised while viewing is caught at line 93 and reported as invalid input, and the loop goes on. One such error, going by PyYAML's date rules, is the date constructor rejecting a value like `2020-13-45` at line 80. So a number in `1..N` does not always view its template, and `View(path)` hides this. Other errors raised while viewing end the process.
- Colour codes and `colorama.init` (lines 6, 47-49, 52): terminal styling. A line record holds only the number, the indent, the directory prefix and the file name.
- Argument parsing, `print` and message texts (lines 54-65, 89-96): process and console plumbing. The exit status is the value `ExitStatus`.
- End of input: when stdin closes, `input()` raises an error that line 93 does not catch, and the process ends with a traceback. The model stops reading when the answers run out, still in Selecting, and `ExitStatus` gives that run status 1. The traceback itself is not modelled.
- Only `int()`'s yes/no answer is modelled: an answer is either a number or not one. `int()`'s rules for whitespace, signs and underscores are not.
- `Text.Lower`: ASCII case mapping only; Python's Unicode `str.lower()` maps more characters.
- `Paths.Sep`: POSIX (`/`) only; on Windows `os.sep` and `os.path.join` use `\`.
