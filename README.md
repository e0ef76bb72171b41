# Literal substitution over a tree of JSON files

This project models `replace_json_content.py` and proves properties of the model. The script walks the directory tree below `.` and skips `.git` directories. For every file whose name ends in `.json` it applies an ordered table of literal substring replacements (`ANTI_HARMONY_DICT`) to the raw text. It rewrites a file only when its text changed, and it prints `DETECT_CHANGE=true` or `DETECT_CHANGE=false` to say whether any file was changed.

The model has three modules:

- `StrReplace` (`strreplace.dfy`) covers Python's `str.replace` and `in` on strings. `ReplaceAll(s, p, r)` scans from the left and replaces non-overlapping occurrences. It resumes after each replacement, so inserted text is never scanned again. The empty pattern follows Python: `"ab".replace("", "x") == "xaxbx"`. `Count` is the number of occurrences that `ReplaceAll` replaces, which is Python's `str.count`.
- `Rules` (`rules.dfy`) holds the table as a sequence of rules in the dict literal's insertion order, which is the order Python 3.7 and later iterate a dict in. `ApplyTable` is the pure fold: each rule runs on the previous rule's output. `ApplyRules` is the script's loop with the `if key in new_content` guard, proved equal to `ApplyTable`.
- `Scan` (`scan.dfy`) covers `scan_and_replace` and the `__main__` block.
  - The file system is a value. A directory is the sequence of its entries. A file carries the result of reading it (`Read(text)` or `ReadFailed`) and whether rewriting it succeeds (`writeOk`).
  - `Walk` is the sequence of files `os.walk` reports, top-down: a directory's own files, then each of its sub-directories in turn. The `.git` pruning of lines 17-18 is applied at every level.
  - `ScanAndReplace` keeps an explicit stack of pending directories and visits them in `os.walk`'s top-down order. It is proved to return the flag `AnyChanged(Walk(..))` and the rewrites `WritesOf(Walk(..))`.
  - `Visible` is an independent reference: the set of files that lie in no directory called `.git`. `WalkIsVisible` proves that the walk reports exactly these files when names are unique within each directory, as in any real directory. `EachFileOnce` proves that it then reports each of them once and rewrites each path at most once.

Rules chain. With `[("A","B"), ("B","C")]` the text `"A"` becomes `"C"`, not `"B"`, because the second rule sees the first rule's output (`Rules.ChainedRulesExample`).

The `try` block (lines 25-40) also covers the write. If the write raises, the exception is caught and `has_changes` is not set for that file. The model keeps this: a rewrite is recorded with `ok == writeOk`, and the flag counts only rewrites that succeed.

## Model

| member | source | states |
|---|---|---|
| StrReplace.ReplaceAllLength | replace_json_content.py:32 | the result is as long as `s` plus `Count(s, p)` times the difference between the lengths of `r` and `p`, where `Count(s, p)` is the number of non-overlapping occurrences replaced |
| StrReplace.CountBound | replace_json_content.py:32 | for a non-empty pattern the replaced occurrences do not overlap: `Count(s, p)` times the length of `p` is at most the length of `s` |
| StrReplace.CountPositiveIffContains | replace_json_content.py:31-32 | `replace` replaces at least one occurrence exactly when `p in s` holds |
| StrReplace.AbsentIsNoOp | replace_json_content.py:31-32 | if `p` does not occur in `s`, `s.replace(p, r) == s`, so the `if key in new_content` guard does not change the result |
| StrReplace.UnchangedIff | replace_json_content.py:31-34 | `s.replace(p, r) == s` exactly when `p` does not occur in `s` or `r == p`, in both directions |
| StrReplace.ReplacedTextNotRescanned | replace_json_content.py:32 | after an occurrence at the front, the replacement is emitted as is and scanning resumes after the occurrence, even when `r` contains `p` |
| StrReplace.NotRescannedExample | replace_json_content.py:32 | `"aaaa".replace("aa", "a") == "aa"`, not `"a"`, and two occurrences are counted |
| StrReplace.EmptyPatternExample | replace_json_content.py:32 | an empty pattern inserts the replacement around every character: `"ab".replace("", "x") == "xaxbx"` |
| Rules.ApplyTableCons | replace_json_content.py:29-32 | the first rule runs first, and the remaining rules run on its output |
| Rules.ApplyTableAppend | replace_json_content.py:29-32 | applying `t1 + t2` is applying `t1` and then applying `t2` to that result |
| Rules.ApplyTableSnoc | replace_json_content.py:29-32 | the last rule runs on the output of all the rules before it |
| Rules.ApplyTableNoMatch | replace_json_content.py:29-34 | a text that contains none of the patterns passes through unchanged, so such a file is not rewritten |
| Rules.ChainedRulesExample | replace_json_content.py:29-32 | with `[("A","B"), ("B","C")]` the text `"A"` becomes `"C"`, because the second rule sees the first rule's output |
| Rules.RuleOrderMatters | replace_json_content.py:29-32 | with the same two rules in the other order, `"A"` becomes `"B"`, so the result depends on table order |
| Rules.AntiHarmonyKeysDistinct | replace_json_content.py:4-10 | the table has 20 rules, every pattern is non-empty, and no two patterns are equal, as for dict keys |
| Rules.ApplyRules | replace_json_content.py:29-32 | the guarded loop over the table returns exactly `ApplyTable(content, table)` |
| Scan.RemoveFirstUnique | replace_json_content.py:17-18 | if names are unique, removing the first `.git` from `dirs` leaves exactly the directories not called `.git` |
| Scan.SecondGitEntryWouldBeWalked | replace_json_content.py:17-18 | `dirs.remove` drops only the first `.git`: if a listing had two `.git` directories, the second would be walked |
| Scan.WalkIsVisible | replace_json_content.py:15-20 | for a tree with unique names per directory, the walk reports exactly the files that lie in no `.git` directory, at any depth |
| Scan.VisibleOutsideGit | replace_json_content.py:17-18 | no file of the reference set has `.git` among its directory components |
| Scan.VisibleMembers | replace_json_content.py:15-20 | a file is in the reference set of a listing exactly when it belongs to one of the listing's entries, in both directions |
| Scan.ListingOrderIrrelevant | replace_json_content.py:15-20 | two listings with the same entries in any order give the same reference set of files |
| Scan.WalkDistinct | replace_json_content.py:15-20 | for a tree with unique names per directory, no file is reported twice by the walk |
| Scan.WritesOfDistinctPaths | replace_json_content.py:22-37 | when no file is handled twice, no path is rewritten twice |
| Scan.EachFileOnce | replace_json_content.py:12-40 | for a tree with unique names per directory, the walk reports each file once and each path is rewritten at most once |
| Scan.NoGitDirectoryVisited | replace_json_content.py:15-18 | nothing below a directory named `.git` is visited, at any depth |
| Scan.HandleFile | replace_json_content.py:22-40 | one file produces a rewrite exactly when its name ends in `.json`, its read succeeded and its new text differs, and the rewrite carries `ApplyTable(content)`; the flag is set for it exactly when that rewrite also succeeds |
| Scan.HandleFiles | replace_json_content.py:20-40 | looping over one directory's files gives the flag `AnyChanged(files)` and the rewrites `WritesOf(files)` |
| Scan.ScanAndReplace | replace_json_content.py:12-42 | the stack-driven walk with pruning returns `AnyChanged(Walk(top))` and `WritesOf(Walk(top))` |
| Scan.AnyChangedIff | replace_json_content.py:13-38 | the flag is true exactly when some handled file is a readable `.json` file whose text changed and whose rewrite succeeded |
| Scan.WritesOfIff | replace_json_content.py:22-37 | a rewrite is recorded exactly for each readable `.json` file whose text the table changes, and it carries the new text |
| Scan.WritesAreChangedJson | replace_json_content.py:22-37 | every rewritten path ends in a `.json` name; its text is the new text of a successfully read file and differs from the text read |
| Scan.FlagMeansVisibleChange | replace_json_content.py:12-42 | for a well-formed tree the flag is true exactly when some readable `.json` file outside `.git` changed and was rewritten successfully |
| Scan.WritesMeanVisibleChanges | replace_json_content.py:12-40 | for a well-formed tree the rewrites are exactly those of readable `.json` files outside `.git` whose text changed |
| Scan.ScanMeaning | replace_json_content.py:12-42 | both statements above, for every rewrite at once |
| Scan.DetectChangeLine | replace_json_content.py:45-48 | the printed line is one of the two `DETECT_CHANGE=` lines, and it is the `true` line exactly when the flag is set |
| Scan.DetectChange | replace_json_content.py:44-48 | the printed line is `DETECT_CHANGE=true` or `DETECT_CHANGE=false`; for a well-formed tree it is `true` exactly when some readable `.json` file outside `.git` changed under the fixed table and was rewritten; the rewrites are exactly those files' new texts |

## Left out

- The real file system is not modelled: `os.walk` listings, `open`, `read` and `write`. The tree of entries is an input, and the rewrites are returned as a list instead of being performed.
- UTF-8 decoding is not modelled. A file's text is a sequence of code points, or `ReadFailed` when opening or decoding fails.
- Newline translation of text mode is not modelled. `Read(text)` is the text after reading has turned CRLF and CR into `\n`. The substitution and the comparison with the new text operate on that text. A rewritten file is written with the platform's line separator, so a rewritten CRLF file may come back with other line endings.
- `os.path.join` is not modelled as a string operation. Paths are lists of name components below `.`.
- Exception types and messages are not modelled. A failed read is `ReadFailed`, and a failed write is a file with `writeOk == false`. The file contents left behind by a write that fails partway are not modelled: opening with `'w'` has already truncated the file.
- The progress and error `print` messages (lines 35 and 40) are left out. Only the final `DETECT_CHANGE=` line is modelled.
- Some `os.walk` behaviour is left out: directories whose listing fails (skipped silently because `onerror` is not set), symbolic links (not followed), and the operating system's listing order. The order of entries in a directory is taken as given. For a well-formed tree the flag and the set of rewrites are stated against `Visible` (`Scan.FlagMeansVisibleChange`, `Scan.WritesMeanVisibleChanges`), and reordering the entries of one listing does not change `Visible` (`Scan.ListingOrderIrrelevant`); a reordering inside a sub-directory changes that directory's entry and is not covered by that lemma. Only the order of the returned rewrites follows the listing order.
- Scan.DetectChange: its statements about the files outside `.git` assume that names are unique within each directory (`WellFormed`), which holds for every real directory listing. Without that assumption it states the line and the rewrites in terms of `Walk`.
- The translation-merge script `.github/workflows/scripts/merge_script.py` is not part of this model.
