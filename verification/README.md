# Audio Merger (smerge.py), modelled in Dafny

smerge.py is a small tkinter program. The user picks audio files and names an
output file. The program joins the files byte for byte into one file, which
it places next to the first file. This model keeps the logic behind the two
buttons and drops the widgets:

- **Select Files** (`select_files`) orders the chosen paths naturally by base
  name, so `track9` comes before `track10`. Each base name is split into text
  runs and digit runs, and each digit run is compared as a number. Python's
  `sorted` is stable, so files with equal keys stay in the order they were
  picked. The directory of the first file becomes the output directory.
- **Merge Files** (`merge_files`) does the following in order:
  - warns and stops when nothing is selected;
  - builds the output path from that directory, the entry text (or
    `merged_audio` when it is empty) and the first file's extension;
  - opens the output;
  - appends every selected file to it, in order;
  - reports progress on a status label and a progress bar: 10, 20, then
    `20 + i * 60 / n` for file `i` of `n`, then 90 and 100;
  - on any error, shows the error and sets the bar to 0.

Modules, one file each:

| file | module | contents |
|---|---|---|
| `lex.dfy` | `Lexicographic` | Python's `<` on strings and lists, as a three-way comparison (`Incomparable` stands for the `TypeError` between `str` and `int`) |
| `paths.dfy` | `Paths` | `basename`, `dirname`, `splitext` and `join` from POSIX `os.path` |
| `natural_key.dfy` | `NaturalKey` | `natural_keys` and `atoi`: the `re.split(r'(\d+)', …)` split, the token list and the comparison of two keys |
| `stable_sort.dfy` | `StableSort` | `sorted(xs, key=…)`: a stable sort, modelled as an insertion sort and proved to be the only sorted, stable arrangement |
| `natural_sort.dfy` | `NaturalSort` | the sort of the selection and its properties |
| `merge_spec.dfy` | `MergeSpec` | `merge_files` as functions: the output path, the sequence of label and bar updates, the copy loop over a disk given as a map, and the outcome |
| `merger.dfy` | `Merger` | class `AudioMerger`: fields `selectedFiles`, `outputPath`, `status`, `progress`; `SelectFiles` and `MergeFiles` change them step by step and are proved against `MergeSpec` |

A ghost field `shown` records every change to the label and bar made by the
latest `MergeFiles`. This lets the method's contract state the whole progress
schedule, not only the final values.

Three points of smerge.py's behaviour that the model keeps:

- an empty output name becomes `merged_audio`;
- the program never asks before overwriting the output, and it does not look
  for a file selected twice;
- each file's label is shown before that file is copied.

## Model

| member | source | states |
|---|---|---|
| Lexicographic.Lex | smerge.py:62 | definition: Python's `<` on two sequences, element by element with a given three-way comparison, a proper prefix coming first (its properties are the five lemmas below) |
| Lexicographic.LexEq | smerge.py:62 | comparing two key lists gives "equal" exactly when the lists are equal |
| Lexicographic.LexFlip | smerge.py:62 | swapping the two lists reverses the comparison |
| Lexicographic.LexTrans | smerge.py:62 | list `<` is transitive |
| Lexicographic.LexFirstDifference | smerge.py:62 | the first position where two lists differ decides their order |
| Lexicographic.LexPrefix | smerge.py:62 | a proper prefix is smaller (on exhaustion the shorter list comes first) |
| Lexicographic.LexDefined | smerge.py:62 | when no pair of aligned elements raises, the list comparison does not raise either |
| Paths.LastIndexOf | smerge.py:60 | the result is the last index holding the character, or -1 when it does not occur |
| Paths.StripTrailingSlashes | smerge.py:63 | the result is a prefix of the input, what was removed is all slashes, and the result does not end in a slash |
| Paths.Basename | smerge.py:60 | the base name is a suffix of the path, has no separator, and is preceded by a separator whenever it is shorter than the path |
| Paths.Dirname | smerge.py:63 | `posixpath.dirname`: the directory is a prefix of the path (the lemmas below pin it down) |
| Paths.DirnameBasename | smerge.py:60-63 | path = directory + run of separators + base name, where the run is non-empty only when the directory ends in a name; the directory is empty, all separators, or ends in a non-separator |
| Paths.DirnameUnique | smerge.py:63 | any split of a path into a directory, a run of separators and the base name with those properties is the one `dirname` makes, so `/a` gives `/`, `//a` gives `//` and `a/b//c` gives `a/b` |
| Paths.StripSlashes | smerge.py:63 | removing the trailing separators from a name followed by separators gives back the name |
| Paths.DirnameEmpty | smerge.py:63 | the directory is empty exactly when the path has no `/` |
| Paths.Splitext | smerge.py:87 | definition: `posixpath.splitext`, cutting at the last dot of the base name when some character other than a dot comes before it in the base name |
| Paths.Extension | smerge.py:87 | definition: the second half of `splitext` |
| Paths.SplitextParts | smerge.py:87 | root + extension = path; an extension is empty or one dot followed by no dot and no separator |
| Paths.ExtensionExists | smerge.py:87 | there is an extension exactly when the base name has a dot with a non-dot character before it, so `.mp3` has none and `a.b.mp3` has `.mp3` |
| Paths.Join | smerge.py:88 | `posixpath.join` of two parts: an absolute second part replaces the first; otherwise one `/` is put between them unless the first is empty or ends in `/` |
| Paths.JoinDirname | smerge.py:63-88 | joining a plain name onto a path's directory gives a path with that name as base name and the same directory |
| Paths.ExtensionOfJoin | smerge.py:87-88 | joining `name + ext` onto any directory gives a path whose extension is `ext`, when `name` is not only dots |
| NaturalKey.TextLength | smerge.py:60 | the longest prefix without digits: no digit before it, a digit right after it |
| NaturalKey.DigitLength | smerge.py:60 | the longest prefix of digits: all digits before it, no digit right after it |
| NaturalKey.SplitDigitRuns | smerge.py:60 | definition: `re.split(r'(\d+)', s)`, the text before the first digit run, the run, then the split of the rest |
| NaturalKey.SplitDigitRunsLayout | smerge.py:60 | `re.split(r'(\d+)', s)` gives an odd number of pieces: texts without digits at even positions (empty only at the ends) and non-empty digit runs at odd positions, which together spell `s` |
| NaturalKey.SplitDigitRunsUnique | smerge.py:60 | any list of pieces with that layout that spells `s` is the split of `s` |
| NaturalKey.DecimalValue | smerge.py:59 | definition: `int` of a string of digits, leading zeros allowed |
| NaturalKey.Atoi | smerge.py:58-59 | definition: `atoi`, a non-empty digit string becomes its value and anything else stays text |
| NaturalKey.Key | smerge.py:56-60 | definition: `natural_keys`, `atoi` of every piece of the split of the path's base name (its shape: `KeyLayout`) |
| NaturalKey.LeadingZero | smerge.py:59 | `int("0" + m) == int(m)` for a digit string `m` |
| NaturalKey.AtoiText | smerge.py:59 | `atoi` leaves a digit-free text as a string |
| NaturalKey.Tokens | smerge.py:60 | the key has one token per piece, and each token is `atoi` of its piece |
| NaturalKey.KeyLayout | smerge.py:56-60 | a key alternates string and number tokens and has odd length; position `2j` is the j-th text run, position `2j+1` the value of the j-th digit run |
| NaturalKey.TokensOfLayout | smerge.py:59-60 | the tokens of any split with the `re.split` layout alternate: texts at even positions, the digit runs' values at odd positions |
| NaturalKey.CompareTokens | smerge.py:62 | definition: Python's `<` on two key elements, strings by characters, numbers by value, and `TypeError` between a string and a number |
| NaturalKey.CompareKeys | smerge.py:62 | definition: Python's `<` on two keys, `Lex` over `CompareTokens` |
| NaturalKey.TokensAreCompared | smerge.py:62 | token `<` behaves as an order: equal exactly on equal tokens, reverses when swapped, transitive |
| NaturalKey.AlternatingComparable | smerge.py:58-62 | two alternating token lists never compare a string with a number |
| NaturalKey.KeysComparable | smerge.py:56-62 | comparing the keys of any two paths never raises `TypeError` |
| NaturalKey.KeyOfParts | smerge.py:56-60 | a key is fixed by any split of the base name with the `re.split` layout |
| NaturalKey.SplitStepAt | smerge.py:60 | a text without digits, a digit run and a text that does not start with a digit split into the text, the run and the split of the rest |
| NaturalKey.SplitAround | smerge.py:60 | a digit run between a text not ending in a digit and a text not starting with one is a piece of its own: the split of the whole is the split before it, the run, and the split after it |
| NaturalKey.TokensAppend | smerge.py:60 | the tokens of two lists of pieces one after the other are the tokens of each, one after the other |
| NaturalKey.KeyAround | smerge.py:56-60 | for such a base name `pre + m + r` the key is the tokens of `pre`, then `int(m)`, then the tokens of `r` |
| NaturalKey.NumberDecides | smerge.py:62 | two keys that differ only in one number compare as those numbers do, and are equal exactly when the numbers are |
| StableSort.Insert | smerge.py:62 | definition: puts an element after every element whose key is not greater than its own |
| StableSort.Sort | smerge.py:62 | definition: `sorted(xs, key=…)` as insertion of each element in turn (that this is the stable sort: `SortUnique`) |
| StableSort.InsertPermutes | smerge.py:62 | insertion adds exactly one element |
| StableSort.InsertSorted | smerge.py:62 | insertion into a sorted list keeps it sorted |
| StableSort.InsertStable | smerge.py:62 | the inserted element goes after every element with the same key |
| StableSort.SortPermutes | smerge.py:62 | `sorted` returns a permutation of its input |
| StableSort.SortSorted | smerge.py:62 | no element of the result is followed by one with a smaller key |
| StableSort.SortStable | smerge.py:62 | elements with equal keys keep their input order |
| StableSort.SortedStableEqual | smerge.py:62 | two sorted lists with the same elements for every key, in the same order, are equal |
| StableSort.SortUnique | smerge.py:62 | any sorted, stable arrangement of the input is the result of `sorted` |
| NaturalSort.SortPaths | smerge.py:62 | definition: `sorted(files, key=natural_keys)` |
| NaturalSort.NaturalKeyOrder | smerge.py:56-62 | `<` on the keys of paths is a strict order in which any two keys are comparable, as `sorted` needs |
| NaturalSort.SortPathsCorrect | smerge.py:56-62 | the sorted selection is a permutation of the selected full paths, ordered by the base names' natural keys, with ties in selection order |
| NaturalSort.SortPathsUnique | smerge.py:62 | any arrangement with those properties is the sorted selection |
| NaturalSort.SortPathsIdempotent | smerge.py:62 | sorting a sorted selection changes nothing |
| NaturalSort.NumbersCompareByValue | smerge.py:58-62 | base names `pre + m + r` and `pre + m' + r` that differ only in one digit run, with any text around it (`track1.wav` against `track10.wav`), compare by the runs' numeric values, in both directions, and tie exactly when the values are equal |
| NaturalSort.TiesKeepOrder | smerge.py:62 | two paths with equal keys keep their order |
| NaturalSort.LeadingZeroTie | smerge.py:58-62 | a digit run with a leading zero and the same run without it, with any text around them, give equal keys, so the two paths keep their selection order either way round |
| NaturalSort.LeadingZeroExample | smerge.py:58-62 | `file07` and `file7` have equal keys and keep their selection order either way round |
| NaturalSort.SameNameKeepsOrder | smerge.py:60-62 | the same base name in two directories keeps its selection order |
| NaturalSort.TrackExample | smerge.py:56-62 | for any text around the number, `track1, track2, track10, track9` sorts to `track1, track2, track9, track10` |
| NaturalSort.TrackFiles | smerge.py:56-62 | `track1.wav, track2.wav, track10.wav, track9.wav` sorts to `track1.wav, track2.wav, track9.wav, track10.wav` |
| NaturalSort.TrackKeys | smerge.py:56-62 | the keys of `track1`, `track2`, `track9` and `track10` increase in that order |
| NaturalSort.CharacterOrder | smerge.py:60-62 | compared character by character, `track10…` would come before `track9…`, the opposite of the natural order |
| MergeSpec.OutputName | smerge.py:77-79 | definition: the entry text, or `merged_audio` when it is empty |
| MergeSpec.OutputPath | smerge.py:87-88 | definition: the output name plus the first file's extension, joined onto the output directory |
| MergeSpec.OutputPathLayout | smerge.py:63-88 | the output name is the entry or `merged_audio`; for an entry without `/`, the output sits in the first file's directory and is named `name + extension of first file`, which is its extension unless the name is only dots; an entry starting with `/` replaces the directory |
| MergeSpec.FileProgress | smerge.py:95-99 | definition: `20 + i * (60 / n)`, in exact reals |
| MergeSpec.FileProgressRange | smerge.py:95-99 | per-file progress rises from above 20 and reaches exactly 80 at the last file |
| MergeSpec.UpdatesFrom | smerge.py:97-99 | one label update per file |
| MergeSpec.UpdatesAt | smerge.py:97-99 | update `j` reports file `i + j` of `n`, with that file and its progress value |
| MergeSpec.FileUpdateAt | smerge.py:97-99 | the update for file index `i` is "Processing file i+1 of n" at `20 + (i+1) * 60/n` |
| MergeSpec.Announcements | smerge.py:82-106 | definition: every label and bar update of a successful merge, in order (spelled out by `AnnouncementsAt`) |
| MergeSpec.AnnouncementsAt | smerge.py:82-106 | a successful merge shows bar 0, "Preparing" at 10, "Creating" at 20, each file in order, "Finalizing" at 90, "Complete" at 100 |
| MergeSpec.AnnouncementsPrefix | smerge.py:82-99 | the first `m + 3` updates are the opening three followed by the first `m` file updates |
| MergeSpec.AnnouncementsMonotone | smerge.py:82-106 | along a successful merge the bar stays within 0..100 and never moves back |
| MergeSpec.AnnouncementsProgress | smerge.py:82-106 | a successful merge starts at 0, ends at "Complete" and 100, never moves back, reports every file by number, and is at 80 after the last file |
| MergeSpec.NonDecreasing | smerge.py:82-106 | values that never drop from one step to the next never drop at all |
| MergeSpec.CopySteps | smerge.py:92-103 | the copy loop changes only the output, and stops only at a selected file that is not on the disk |
| MergeSpec.CopyStopsEarly | smerge.py:102-111 | after the loop stops, the remaining files change nothing |
| MergeSpec.CopyStep | smerge.py:97-103 | one turn of the loop appends the next file, or stops at it for good |
| MergeSpec.FirstMissing | smerge.py:102 | the index of the first file not on the disk: every earlier file is there |
| MergeSpec.Contents | smerge.py:102-103 | definition: the bytes of the files, one after the other |
| MergeSpec.ContentsSnoc | smerge.py:103 | the contents of the files plus one more file are the old contents followed by that file |
| MergeSpec.CopyWritesContents | smerge.py:92-103 | when the output is not one of the inputs, the loop succeeds exactly when every file exists, stops at the first missing one otherwise, and the output holds the contents of the files before it, in order |
| MergeSpec.CopyPrefix | smerge.py:97-103 | up to the first missing file, the output is the concatenation of the files copied |
| MergeSpec.ContentsSize | smerge.py:103 | the output is as long as the inputs together |
| MergeSpec.ContentsAt | smerge.py:97-103 | each input sits in the output at the offset given by the sizes of the inputs before it |
| MergeSpec.Merge | smerge.py:73-75 | the warning outcome happens exactly for an empty selection, and then the disk and the window are untouched |
| MergeSpec.MergeInto | smerge.py:84-111 | a merge with a selection never gives the warning outcome, and always ends with a label update |
| MergeSpec.MergeWrites | smerge.py:84-111 | when the output is not one of the inputs, a merge succeeds exactly when the output can be created and every input is on the disk. It then holds the inputs' bytes in the selection order, as many as they have together. An output that cannot be created leaves the disk unchanged. Otherwise only the output changes: it is created or emptied and receives the inputs before the first missing one, which is the file the error names |
| MergeSpec.MergeProgress | smerge.py:82-111 | the bar starts at 0 and never moves back before the last update. Success shows the full schedule, ending at "Complete" 100. Failure ends at the error with 0 |
| MergeSpec.FailurePoint | smerge.py:86-111 | a failure to create the output shows exactly the opening three updates and the error. A failure to read file `k` first shows everything a successful merge shows up to that file's report |
| MergeSpec.FailedTrace | smerge.py:97-111 | a failure after `m` file reports shows a successful merge's first `m + 3` updates, then the error |
| MergeSpec.ErrorAfter | smerge.py:109-111 | a prefix of a non-decreasing schedule followed by the error stays non-decreasing up to the error |
| MergeSpec.SameFirstMissing | smerge.py:92 | truncating an output that is not an input does not change which input is missing first |
| MergeSpec.SameContents | smerge.py:92 | truncating an output that is not an input does not change the inputs' contents |
| Merger.AudioMerger.constructor | smerge.py:6-12 | a new window has nothing selected, no output directory, an empty label and bar 0 |
| Merger.AudioMerger.UpdateStatus | smerge.py:45-47 | sets the label and the bar and records the update; the selection is untouched |
| Merger.AudioMerger.SelectFiles | smerge.py:50-63 | a cancelled dialog changes nothing; otherwise the selection becomes the natural sort of the chosen files and the output directory that of the first sorted file; the invariant (selection in natural order, output directory of the first file, bar within 0..100) is kept |
| Merger.AudioMerger.MergeFiles | smerge.py:72-111 | gives the outcome, disk and label/bar updates of `MergeSpec.Merge` (so what `MergeSpec.MergeWrites` says of the disk and `MergeSpec.MergeProgress` of the updates holds of it); keeps the selection and the invariant; an empty selection leaves the label and bar alone; the label and bar end at "Complete"/100 on success and at the error/0 on failure |
| Merger.AudioMerger.Begin | smerge.py:77-91 | resets the bar, shows "Preparing" and "Creating", and returns the output path `OutputPath(dir, entry, first file)` |
| Merger.AudioMerger.WriteOutput | smerge.py:92-111 | opens the output, copies, and finishes or fails exactly as `MergeSpec.MergeInto` says |
| Merger.AudioMerger.CopyFiles | smerge.py:97-103 | the `for` loop: reports each file, then appends it; the result is `MergeSpec.CopySteps`, and the updates shown are the file reports up to where it stopped |
| Merger.AudioMerger.ReportFile | smerge.py:97-99 | shows "Processing file i+1 of n" with progress strictly above 20 and at most 80 |

## Left out

- The tkinter widgets, the window, `create_widgets`, `window.update()` and `mainloop` (smerge.py:6-43, 113-115): these are user interface plumbing with no logic of their own.
- The file dialog and the entry widget: what they return is given to `SelectFiles` and `MergeFiles` as parameters.
- The message boxes: the warning, success and error dialogs are modelled by the `Outcome` value that `MergeFiles` returns. The text of the error message (Python's `str(e)`) is not modelled; `Failure` names only the path that could not be created or read.
- `update_files_label` (smerge.py:66-70): it only builds display text from the base names.
- Label texts: these are abstracted to `Status` constructors. `Processing` carries the file's path, and the label shows its base name.
- Floating point: progress values are exact reals, so `60 / file_count` is not rounded.
- File I/O: this is replaced by `Disk`, a map from readable paths to their bytes plus a set of paths that cannot be opened for writing. Only these two errors are modelled: an output that cannot be created and an input that is not on the disk. Failed writes, partial reads and other exceptions are not.
- Write buffering: each appended file is visible at once. A selected file that is also the output is therefore read in its current, partly written state. `CopySteps` models this, but `MergeSpec.CopyWritesContents` says nothing about it.
- MergeSpec.CopyWritesContents: it states the written bytes only when the output path is not one of the selected files. With that aliasing the result depends on Python's buffering, which is not modelled.
- MergeSpec.MergeWrites: for the same reason it covers only an output path that is not one of the selected files.
- Paths: only POSIX paths with separator `/` are modelled. Windows drive letters and the alternative separator are not.
- NaturalKey: digits are the ASCII digits `0`-`9`; every other character stays in a text piece. smerge.py differs on two kinds of names. Decimal digits of other scripts (such as `٣`) are matched by `\d` and become numbers in smerge.py, while the model keeps them as text. A character that `str.isdigit()` accepts but `\d` does not (such as `²`) makes `int()` raise `ValueError` in `select_files` when it forms a text piece of its own (the base name `1²`); the model keeps that piece as text instead.
- The stray text at smerge.py:117 is not Python and has no behaviour.
