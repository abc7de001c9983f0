# Image path lists: collector and merger

This project models two dataset-preparation scripts and proves properties
of the model.

- The path collector (`helper-utils/get-abs-paths-for-vqgan.py`) handles the
  operations `remove`, `translate` and `rotate` and the splits `train`,
  `test` and `val`. For each pair it lists every file named exactly `1.png`
  or `2.png` below `<root>/<op>/<split>`. Each path is resolved to an
  absolute path, the list is sorted by (parent directory, file name), and it
  is written one path per line to `<op>_<split>.txt`. The file goes into
  `--outdir` if given, else into the operation folder. An operation whose
  folder is missing is skipped. A missing split folder still gets an empty
  list.
- The list merger (`helper-utils/merge_split_lists.py`) handles the splits
  `train`, `val` and `test`. It reads the files matching `*_<split>.txt` in
  one directory, in sorted order. From each file it keeps the stripped lines
  that are neither blank nor `#` comments. It writes their union to
  `<split>.txt`, without duplicates and in first-seen order. A split with no
  matching file produces no output.

Modules:

- `Wrappers`: an `Option` type.
- `Seqs`: concatenation of sequences and the no-duplicates predicate.
- `Strings`: Python's `str.strip()` (its whitespace set is that of
  `str.isspace()`), `startswith`/`endswith`, and Python's ordering of
  strings (code point by code point, a proper prefix first).
- `ListFile`: the one-entry-per-line text format, how Python iterates the
  lines of a text file after its newline translation, and how `pathlib`
  joins a directory and a name.
- `MergeSplitLists`: the merger.
- `AbsPaths`: the collector.
- `Pipeline`: a list the collector writes, read back by the merger.

The file system is data. The merger sees a `SourceDir`: its path, the names
in it in directory order, and the decoded text of each file. The collector
sees a `Dataset`: the root path, and for each operation folder that exists,
the split folders in it and the entries their recursive walk yields. Each
entry has the name the walk saw, whether it is a file, and its resolved
path. Writing a file is a record of its path and its text. An iterator
handed to `write_list` is a `PathIterator` object whose `Next` uses up the
path it yields. These loops are `method`s, each proved equal to a function
of its inputs: `merge_split`'s loop over the files and its inner loop over
their lines, the loop of `read_lines`, the write loops of `merge_split`
and `write_list`, `list(paths)` on an iterator, and the loops of both
`main`s. Two loops are written as recursive functions instead, because
they only build a value: the filter of `iter_lines` (`KeptLines`) and the
comprehension in `find_target_images` (`Qualifying`). The lemmas state
what all these functions promise.

## Model

| member | source | states |
|---|---|---|
| `Strings.IsSpace` | helper-utils/merge_split_lists.py:18 | the characters `str.isspace()` accepts, which are the ones `line.strip()` removes |
| `Strings.Strip` | helper-utils/merge_split_lists.py:18 | defines `line.strip()`: drop the `str.isspace()` characters from the front, then from the back |
| `Strings.StripSpec` | helper-utils/merge_split_lists.py:18 | `strip()` leaves no whitespace at either end |
| `Strings.StripPaddedAt` | helper-utils/merge_split_lists.py:18 | what `strip()` removes is whitespace, and only from the two ends |
| `Strings.StripPadded` | helper-utils/merge_split_lists.py:18 | any all-whitespace padding around a stripped string strips back to that string |
| `Strings.StripIdempotent` | helper-utils/merge_split_lists.py:18 | stripping twice is stripping once |
| `Strings.Less` | helper-utils/merge_split_lists.py:23 | defines Python's `<` on strings, as `sorted` uses it: the first differing code point decides, and a proper prefix sorts first |
| `Strings.LessIrreflexive` | helper-utils/merge_split_lists.py:23 | no string sorts before itself |
| `Strings.LessTransitive` | helper-utils/merge_split_lists.py:23 | the string order is transitive |
| `Strings.LessTotal` | helper-utils/merge_split_lists.py:23 | of two different strings, one sorts first |
| `Strings.SortedSet` | helper-utils/merge_split_lists.py:23 | defines `sorted(set(xs))`: each element inserted once into an ascending list |
| `Strings.SortedSetSpec` | helper-utils/merge_split_lists.py:23 | `sorted(set(xs))` is strictly ascending and holds exactly the elements of `xs` |
| `Strings.StrictlySortedUnique` | helper-utils/merge_split_lists.py:23 | two strictly ascending sequences with the same elements are equal |
| `ListFile.Render` | helper-utils/merge_split_lists.py:36-38 | defines the text of a list file: `entry + "\n"` for each entry, in order |
| `ListFile.RenderSnoc` | helper-utils/merge_split_lists.py:37-38 | writing one more entry appends `entry + "\n"` to the text |
| `ListFile.Translate` | helper-utils/merge_split_lists.py:16 | defines the universal-newline translation of `open(..., "r")`: "\r\n" and a lone "\r" become "\n" |
| `ListFile.TranslateNoReturn` | helper-utils/merge_split_lists.py:16 | no "\r" is left after the translation |
| `ListFile.TranslateUnchanged` | helper-utils/merge_split_lists.py:16 | a text without "\r" is read as it is |
| `ListFile.Lines` | helper-utils/merge_split_lists.py:17 | defines `for line in f` on the translated text: cut after each "\n", which each line keeps |
| `ListFile.LinesSplitText` | helper-utils/merge_split_lists.py:17 | the lines of a text file join back to the text; each is non-empty, has "\n" only at its end, and all but the last end in "\n" |
| `ListFile.LinesOfRender` | helper-utils/merge_split_lists.py:36-38 | a file written one entry per line reads back line by line as exactly those entries, each with its "\n", when no entry contains "\n" |
| `ListFile.RenderNoReturn` | helper-utils/merge_split_lists.py:36-38 | a list written from entries without "\r" contains no "\r" |
| `ListFile.JoinPath` | helper-utils/merge_split_lists.py:35 | defines `str(dir / name)` for a directory in `pathlib`'s normal form |
| `ListFile.JoinPathEnds` | helper-utils/merge_split_lists.py:35 | `dir / name` ends with the name and, unless the directory is "." or "", starts with the directory |
| `ListFile.JoinPathInjective` | helper-utils/merge_split_lists.py:35 | in one directory, different names give different paths |
| `MergeSplitLists.LineYield` | helper-utils/merge_split_lists.py:18-20 | defines one step of the filter: the stripped line if it is non-empty and does not start with `#`, else nothing |
| `MergeSplitLists.KeptLines` | helper-utils/merge_split_lists.py:17-20 | defines the generator body: `LineYield` over the lines, in order |
| `MergeSplitLists.IterLines` | helper-utils/merge_split_lists.py:15-20 | defines `iter_lines`: translate newlines, cut into lines, filter |
| `MergeSplitLists.KeptLinesKept` | helper-utils/merge_split_lists.py:18-20 | every line `iter_lines` yields is non-empty, does not start with `#` and is stripped |
| `MergeSplitLists.KeptLinesFrom` | helper-utils/merge_split_lists.py:17-20 | every yielded line is the stripped form of some line of the file |
| `MergeSplitLists.KeptLinesAppend` | helper-utils/merge_split_lists.py:17-20 | the filter works line by line, in file order: two stretches of a file yield what each yields, in order |
| `MergeSplitLists.IterLinesClean` | helper-utils/merge_split_lists.py:15-20 | every line `iter_lines` yields is kept, stripped and free of "\n" and "\r" |
| `MergeSplitLists.ReadLines` | helper-utils/merge_split_lists.py:8-13 | `read_lines` returns the first line `iter_lines` would yield, or None when the file yields none |
| `MergeSplitLists.Glob` | helper-utils/merge_split_lists.py:23 | defines the names `glob("<dir>/*_<split>.txt")` returns, in directory order |
| `MergeSplitLists.GlobSpec` | helper-utils/merge_split_lists.py:23 | the glob returns exactly the listed names ending in `_<split>.txt` that do not start with "." |
| `MergeSplitLists.GlobOrderIsNameOrder` | helper-utils/merge_split_lists.py:23 | full paths in one directory sort as their names do |
| `MergeSplitLists.SourceFiles` | helper-utils/merge_split_lists.py:23 | every file to read can be read |
| `MergeSplitLists.SourceFilesSpec` | helper-utils/merge_split_lists.py:23 | the files to read are strictly ascending and are exactly the matching names |
| `MergeSplitLists.NoSourceFiles` | helper-utils/merge_split_lists.py:23-26 | the list of files is empty exactly when the glob finds nothing |
| `MergeSplitLists.SourceFilesNoDup` | helper-utils/merge_split_lists.py:23 | no file is read twice |
| `MergeSplitLists.SourceFilesDeterministic` | helper-utils/merge_split_lists.py:23 | listings with the same names, in any order, give the same files in the same order |
| `MergeSplitLists.StreamMembers` | helper-utils/merge_split_lists.py:28-29 | a line is in the stream of yielded lines exactly when some file yields it |
| `MergeSplitLists.StreamLength` | helper-utils/merge_split_lists.py:28-29 | the stream is as long as all files' yields together |
| `MergeSplitLists.Dedup` | helper-utils/merge_split_lists.py:27-32 | defines the `seen`/`merged` loop on values: a line is appended when it was not seen before |
| `MergeSplitLists.DedupSpec` | helper-utils/merge_split_lists.py:27-32 | the deduplicated list has no duplicates, holds exactly the input's lines, and is no longer than the input |
| `MergeSplitLists.MergeFileLines` | helper-utils/merge_split_lists.py:28-32 | the inner loop over one file's lines extends the merge of the lines before it to the merge including that file, and keeps `seen` equal to the set of merged lines |
| `MergeSplitLists.DedupStep` | helper-utils/merge_split_lists.py:30-32 | one loop step: a line is appended exactly when it is not in `seen`, and `seen` stays the set of merged lines |
| `MergeSplitLists.DedupFirstSeenOrder` | helper-utils/merge_split_lists.py:27-32 | merged lines stand in the order of their first occurrence |
| `MergeSplitLists.DedupCharacterised` | helper-utils/merge_split_lists.py:27-32 | a list is the merge result exactly when it holds the input's lines in first-occurrence order |
| `MergeSplitLists.DedupOfNoDup` | helper-utils/merge_split_lists.py:27-32 | a list without duplicates merges to itself |
| `MergeSplitLists.MergedLines` | helper-utils/merge_split_lists.py:23-32 | defines the merged list: `Dedup` of the lines `iter_lines` yields for the sorted files, file after file |
| `MergeSplitLists.MergeResult` | helper-utils/merge_split_lists.py:22-38 | defines `merge_split`'s effect: nothing when the glob is empty, else `<out_dir>/<split>.txt` holding the merged lines |
| `MergeSplitLists.WriteLines` | helper-utils/merge_split_lists.py:36-38 | the write loop produces each merged line followed by "\n", in order |
| `MergeSplitLists.MergeSplit` | helper-utils/merge_split_lists.py:22-38 | no output exactly when the glob finds nothing; otherwise `<out_dir>/<split>.txt` holding the first-seen-order deduplication of the lines yielded by the sorted files |
| `MergeSplitLists.MergedLinesSpec` | helper-utils/merge_split_lists.py:27-32 | merged lines: no duplicates; a line is in it exactly when some matching file yields it; first-seen order over the sorted files; no more lines than the inputs hold |
| `MergeSplitLists.KeptLinesTerminated` | helper-utils/merge_split_lists.py:18-20 | clean lines with their "\n" pass the filter unchanged |
| `MergeSplitLists.ReadBack` | helper-utils/merge_split_lists.py:36-38 | a file written from clean lines reads back through `iter_lines` as exactly those lines |
| `MergeSplitLists.MergeIdempotent` | helper-utils/merge_split_lists.py:27-38 | the merged file reads back as the merged list, and merging it again changes nothing |
| `MergeSplitLists.MergeResults` | helper-utils/merge_split_lists.py:51-52 | what `merge_split` returns for each split in turn, one result per split |
| `MergeSplitLists.MergeOutputs` | helper-utils/merge_split_lists.py:51-52 | the files `main` writes: the present results of the splits, in split order, none for a split without source files |
| `MergeSplitLists.MergeAll` | helper-utils/merge_split_lists.py:49-52 | `main` merges `train`, `val`, `test` in turn into `--outdir`, which defaults to `--dir` |
| `MergeSplitLists.MergeOutputsMembers` | helper-utils/merge_split_lists.py:51-52 | the files `main` writes are exactly the results of the splits that have input |
| `MergeSplitLists.MergeOutputFor` | helper-utils/merge_split_lists.py:24-26 | `<split>.txt` is written exactly when some `*_<split>.txt` exists |
| `MergeSplitLists.MergeAllSpec` | helper-utils/merge_split_lists.py:50-52 | for each split, `<split>.txt` appears under the output directory (default `--dir`) exactly when some `*_<split>.txt` exists |
| `AbsPaths.Qualifying` | helper-utils/get-abs-paths-for-vqgan.py:33-37 | defines the list comprehension: the resolved path of each walked entry that is a file named `1.png` or `2.png`, in walk order |
| `AbsPaths.QualifyingHas` | helper-utils/get-abs-paths-for-vqgan.py:33-37 | the resolved path of every file named `1.png` or `2.png` is collected, and no more paths than entries |
| `AbsPaths.QualifyingFrom` | helper-utils/get-abs-paths-for-vqgan.py:33-37 | every collected path is the resolved path of a qualifying entry |
| `AbsPaths.QualifyingAppend` | helper-utils/get-abs-paths-for-vqgan.py:33-37 | the comprehension works entry by entry, in walk order |
| `AbsPaths.QualifyingPermutation` | helper-utils/get-abs-paths-for-vqgan.py:33-37 | reordering the walk only reorders the collected paths (same multiset) |
| `AbsPaths.KeyLess` | helper-utils/get-abs-paths-for-vqgan.py:39 | defines the order of the key `(str(p.parent), p.name)`: by parent, then by name |
| `AbsPaths.KeyLessIrreflexive` | helper-utils/get-abs-paths-for-vqgan.py:39 | no path sorts before itself under the (parent, name) key |
| `AbsPaths.KeyLessTransitive` | helper-utils/get-abs-paths-for-vqgan.py:39 | the key order is transitive |
| `AbsPaths.KeyLessTotal` | helper-utils/get-abs-paths-for-vqgan.py:39 | of two different paths, one sorts first |
| `AbsPaths.InsertByKeySpec` | helper-utils/get-abs-paths-for-vqgan.py:39 | inserting into a key-sorted list keeps it sorted and adds exactly that path |
| `AbsPaths.SortByKey` | helper-utils/get-abs-paths-for-vqgan.py:39 | defines `paths.sort(key=...)` as a stable insertion sort on the key |
| `AbsPaths.SortByKeySpec` | helper-utils/get-abs-paths-for-vqgan.py:39 | the sort returns a key-sorted permutation of its input |
| `AbsPaths.KeySortedUnique` | helper-utils/get-abs-paths-for-vqgan.py:38-39 | two key-sorted lists with the same paths are equal |
| `AbsPaths.FindTargetImages` | helper-utils/get-abs-paths-for-vqgan.py:29-40 | defines `find_target_images`: [] for a missing split folder, else the comprehension sorted by key |
| `AbsPaths.FindTargetImagesSpec` | helper-utils/get-abs-paths-for-vqgan.py:29-40 | a missing split folder gives []; otherwise the list is sorted by (parent, name) and is a permutation of the comprehension; it contains every qualifying entry's resolved path and only such paths |
| `AbsPaths.FindTargetImagesNames` | helper-utils/get-abs-paths-for-vqgan.py:33-36 | when resolving keeps file names, every listed path is named `1.png` or `2.png` |
| `AbsPaths.FindTargetImagesDeterministic` | helper-utils/get-abs-paths-for-vqgan.py:38-39 | walks yielding the same entries in any order give the same list |
| `AbsPaths.PathIterator.constructor` | helper-utils/get-abs-paths-for-vqgan.py:43 | a fresh iterator has all its paths still to yield |
| `AbsPaths.PathIterator.Next` | helper-utils/get-abs-paths-for-vqgan.py:46 | `next(it)` yields the first path left and uses it up, or nothing once the iterator is spent |
| `AbsPaths.Iter` | helper-utils/get-abs-paths-for-vqgan.py:46 | `iter(paths)`: a fresh iterator over a list's paths, or the iterator itself |
| `AbsPaths.ListOf` | helper-utils/get-abs-paths-for-vqgan.py:48 | `list(paths)`: a list as it stands, or what an iterator has left, which is then used up |
| `AbsPaths.WritePaths` | helper-utils/get-abs-paths-for-vqgan.py:46-47 | the write loop produces `str(p) + "\n"` for each path, in order |
| `AbsPaths.Drain` | helper-utils/get-abs-paths-for-vqgan.py:48 | draining an iterator into a list yields exactly the paths it had left, in order, and leaves it spent |
| `AbsPaths.WriteFrom` | helper-utils/get-abs-paths-for-vqgan.py:45-47 | the `for` loop writes one line per path the iterator yields, in order, and leaves the iterator spent |
| `AbsPaths.WriteListAsWritten` | helper-utils/get-abs-paths-for-vqgan.py:43-48 | `write_list` as written: the loop writes every path `iter(paths)` yields; then `len(list(paths))` counts a list in full and finds a spent iterator empty, so the count is 0 |
| `AbsPaths.IteratorMiscounted` | helper-utils/get-abs-paths-for-vqgan.py:46-48 | handed a fresh iterator over one or more paths, `write_list` as written writes them all and reports 0 |
| `AbsPaths.WriteList` | helper-utils/get-abs-paths-for-vqgan.py:43-48 | corrected: `list(paths)` taken once, each of its paths written on its own line, its length reported; for a list this is the script's behaviour |
| `AbsPaths.WriteListCountsLines` | helper-utils/get-abs-paths-for-vqgan.py:46-48 | the reported count is the number of lines in the written file, when no path contains "\n" |
| `AbsPaths.ListFor` | helper-utils/get-abs-paths-for-vqgan.py:69-74 | defines one inner-loop pass: the sorted images of the split rendered into `<op>_<split>.txt` in `--outdir` or the op folder, with their number |
| `AbsPaths.OpOutputs` | helper-utils/get-abs-paths-for-vqgan.py:64-66 | an operation whose folder is missing produces no list; an existing one produces one per split |
| `AbsPaths.WriteSplitList` | helper-utils/get-abs-paths-for-vqgan.py:69-74 | one inner-loop pass writes that split's sorted images to `<op>_<split>.txt` in `--outdir` or the op folder; it calls `write_list` as written with a list, so the count is the number of paths |
| `AbsPaths.WriteOpLists` | helper-utils/get-abs-paths-for-vqgan.py:68-75 | for an existing operation, one list per split, in split order |
| `AbsPaths.Collected` | helper-utils/get-abs-paths-for-vqgan.py:62-75 | defines `main`'s writes: the lists of each operation in `OPS` order, none for a missing folder |
| `AbsPaths.CollectLists` | helper-utils/get-abs-paths-for-vqgan.py:62-75 | `main` writes, operation by operation, the lists of the operations whose folders exist |
| `AbsPaths.CollectedLength` | helper-utils/get-abs-paths-for-vqgan.py:62-75 | the number of lists is the number of splits times the number of existing operations |
| `AbsPaths.CollectedMembers` | helper-utils/get-abs-paths-for-vqgan.py:62-75 | a list is written exactly when it is the list for an existing operation and a split |
| `AbsPaths.CollectedFrom` | helper-utils/get-abs-paths-for-vqgan.py:62-75 | every list written belongs to an existing operation and one of the splits |
| `AbsPaths.CollectedHas` | helper-utils/get-abs-paths-for-vqgan.py:62-75 | the list of every existing operation and every split is written |
| `AbsPaths.OutputNameInjective` | helper-utils/get-abs-paths-for-vqgan.py:73 | `<op>_<split>.txt` determines the operation and the split when the operation name has no "_" |
| `AbsPaths.OpsUnderscoreFree` | helper-utils/get-abs-paths-for-vqgan.py:24 | none of `remove`, `translate`, `rotate` contains "_" |
| `AbsPaths.OpOutputsNamesNoDup` | helper-utils/get-abs-paths-for-vqgan.py:68-73 | one operation's lists carry distinct names, each `<op>_<split>.txt` for one of the splits |
| `AbsPaths.CollectedNamesNoDup` | helper-utils/get-abs-paths-for-vqgan.py:62-75 | distinct operations and splits give distinct file names, so no list overwrites another |
| `AbsPaths.CollectListsSpec` | helper-utils/get-abs-paths-for-vqgan.py:62-75 | three lists per existing operation, all names distinct; nothing named for a missing operation; exactly one list per existing operation and split, in `--outdir` or the op folder |
| `Pipeline.PathStringClean` | helper-utils/get-abs-paths-for-vqgan.py:47 | an absolute target path with no "\n" or "\r" in it passes the merger's line filter unchanged |
| `Pipeline.ImageListReadsBack` | helper-utils/get-abs-paths-for-vqgan.py:43-48 | a list the collector writes reads back through the merger's `iter_lines` as exactly its paths, in order |

## Left out

- Command-line parsing and the `[skip]`, `[warn]` and `[ok]` messages are not modelled. Both `--outdir` options are an `Option` parameter.
- The real file system is not modelled. The merger's directory listing and file texts, and the collector's walk, `exists`, `is_file` and `resolve`, are inputs. I/O failures are not modelled: unreadable files, UTF-8 decoding errors, and `mkdir` or write failures all abort the real scripts.
- File texts are the decoded contents. Reading applies the universal-newline translation (`ListFile.Translate`). Writing in text mode would put the platform's line separator for each "\n"; the model writes "\n", as on POSIX systems.
- `glob` matches a directory named `*_<split>.txt` too, and opening it fails. The model treats every matching name as a readable file (`SourceDir.Valid`). Glob metacharacters inside the `--dir` path are not modelled.
- `glob` returns full paths, but `SourceFiles` sorts names. `GlobOrderIsNameOrder` shows the two orders agree within one directory.
- `list.sort` (in place, stable) is modelled as a pure insertion sort on values. `KeySortedUnique` shows every key-sorted permutation is the same list, so the algorithm does not matter. In-place update is not modelled.
- Directory strings are assumed to be in `pathlib`'s normal form: no "//" and no trailing "/" except the root. `JoinPath` does not normalise them.
- A path that exists but is a regular file is not modelled as such. A split "folder" that is a file is treated as a split with no entries. An operation "folder" that is a file is given as an operation with no split folders, so its three lists are empty. With `--outdir`, the real script also writes three empty lists there: each `split_dir.exists()` is false below a file. Without `--outdir`, the real script stops, because `mkdir` on the operation path fails; the model still records three lists in that path.
- `rglob`'s choice of which symbolic links it descends into is part of the walk given as input.
- The merger's loop over splits reads the directory as it was at the start. Files it writes earlier in the run are not added to the listing. None of the names it writes, `train.txt`, `val.txt` and `test.txt`, ends in `_<split>.txt`.
- Written files are records of (path, text), not a file-system state. Overwriting an existing file is not modelled.
- `Pipeline.ImageListReadsBack`: proved only when every qualifying entry resolves under its own name into an absolute directory whose path has no "\n" and no "\r". Either character ends a line when the merger reads the list back. A symbolic link may resolve to another name, possibly with surrounding whitespace.
- `AbsPaths.CollectListsSpec`: `Dataset.ops` holds the operation folders as they are before the run. `write_list` creates its output directory (`mkdir(parents=True)`), so with `--outdir <root>/rotate` and no `rotate` folder, writing `remove`'s lists creates that folder, and the real script then also writes three empty `rotate` lists. The model reads the dataset as at the start and skips `rotate`. "Nothing is named for a missing operation" holds for operations missing before the run and not created by it.

## Findings

| source | as written | input that shows it | evidently intended | confidence | as-written member | corrected member |
|---|---|---|---|---|---|---|
| helper-utils/get-abs-paths-for-vqgan.py:48 | `write_list` returns `len(list(paths))` after its loop has already iterated `paths` | a generator over one path: one line is written and the reported count is 0 | the number of paths written | medium, not executed; `main` always passes a list, so the script's own runs are unaffected | `AbsPaths.WriteListAsWritten`, `AbsPaths.IteratorMiscounted` | `AbsPaths.WriteList`, `AbsPaths.WriteListCountsLines` |
