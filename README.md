# Film folder report — verified model

`src/extract_from_folder.py` walks a root folder of films. For every
directory directly under the root, taken in case-insensitive name order, it
builds one report row:

- the folder's direct files and their names;
- the video files among them, recognised by a lower-cased suffix from
  `VIDEO_EXTS`, and their names;
- a size and a human-readable size;
- a video format;
- the direct subfolders and their names.

A subfolder called `video_ts` in any letter case marks a DVD. The format
then reads `"DVD"` and the size is everything stored under that subfolder.
Otherwise the size is the sum of the direct video files, and the format is
the sorted set of their extensions joined by `"; "`. The scan also counts
the folders that have at least one subfolder.

The model works on an immutable snapshot of the file system.
`FileTree.Entry` is either a file with a name and a byte size, or a
directory with a name and its children in listing order. The modules are:

- `Text`: lower-casing, Python's string order, `Path.suffix`, `lstrip('.')`,
  `join` and decimal rendering.
- `Seqs`: filtering, the stable `sorted(..., key=...)`, and
  `sorted(set(...))`.
- `FileTree`: the tree, the `rglob("*")` enumeration, and
  `get_folder_size` as a loop proved equal to a structural size.
- `HumanSize`: the unit choice and the exact magnitude of
  `human_readable_size` as written, and a corrected rendering for the PB
  case (see Findings).
- `Films`: `VIDEO_EXTS`, the record of one folder, and `examine_films`
  with its loop and counter.

The loops of the source are kept as methods. These are the unit loop, the
`video_ts` search, the `rglob` accumulation, and the folder loop with its
`results` list and counter. Each method is proved equal to a specification
function that follows the code as written, and the properties the script
relies on are proved as lemmas about those functions. The report rows
therefore carry the size text the program produces, PB case included.

Exact division is used for the unit choice. For every count below 2^53, the
float divisions of the source are exact at each step, so there the unit is
the one the code picks.

## Model

| member | source | states |
|---|---|---|
| Text.Lower | src/extract_from_folder.py:50 | `str.lower` on names, the same length as the name (its uses are stated by FirstVideoTs, VideoClassification and ScanRecords) |
| Text.Less | src/extract_from_folder.py:50 | Python's `<` on strings, a total strict order by LessTrichotomy, LessTransitive, LessIrreflexive and LessAsymmetric |
| Text.LastIndexOf | src/extract_from_folder.py:62 | the result is -1 or an index holding the character, and no later index holds it (the rule `Path.suffix` uses) |
| Text.Suffix | src/extract_from_folder.py:62 | the suffix is empty, or is a proper tail of the name that starts with its only dot and has at least one character after it |
| Text.SuffixExists | src/extract_from_folder.py:62 | a name has a suffix exactly when its last dot is neither its first nor its last character |
| Text.LStripDots | src/extract_from_folder.py:79 | the result is a tail of the input that does not start with a dot, and everything removed was a dot |
| Text.StripOneDot | src/extract_from_folder.py:79 | a string with exactly one leading dot loses that dot and nothing else |
| Text.LessTrichotomy | src/extract_from_folder.py:50 | the sort key order is total: two keys are ordered one way or the other, or are equal |
| Text.LessTransitive | src/extract_from_folder.py:50 | the sort key order is transitive |
| Text.LessIrreflexive | src/extract_from_folder.py:50 | no key sorts before itself |
| Text.LessAsymmetric | src/extract_from_folder.py:50 | two keys are never each before the other |
| Text.Join | src/extract_from_folder.py:80 | `sep.join(xs)`: the parts in order with the separator between them (JoinStartsWithFirst, FormatOfListing) |
| Text.JoinStartsWithFirst | src/extract_from_folder.py:80 | joining nothing gives "", and a join begins with its first part |
| Text.Decimal | src/extract_from_folder.py:21 | the decimal text of a byte count is never empty; DecimalRoundTrip states what it reads back as |
| Text.DecimalRoundTrip | src/extract_from_folder.py:21 | the byte count is written in canonical decimal digits that read back as the count |
| Seqs.Filter | src/extract_from_folder.py:55-56 | a comprehension's result is no longer than its source, and keeps only members of the source that pass the test |
| Seqs.FilterMultiset | src/extract_from_folder.py:55-56 | every element that passes occurs in the result as often as in the source, and any other element does not occur |
| Seqs.FilterKeepsOrder | src/extract_from_folder.py:62-64 | the kept elements come from strictly increasing positions of the source, and a position is kept exactly when its element passes |
| Seqs.SortByKey | src/extract_from_folder.py:50 | `sorted(..., key=...)` by insertion; SortSortedPermutation and SortStable state that it orders, permutes and is stable |
| Seqs.SortSortedPermutation | src/extract_from_folder.py:50 | the sorted listing is ordered by key and is a permutation of the listing |
| Seqs.SortStable | src/extract_from_folder.py:50 | entries with equal keys keep their listing order |
| Seqs.FilterSorted | src/extract_from_folder.py:50-52 | skipping the non-directories of the sorted listing keeps it sorted |
| Seqs.SortedSet | src/extract_from_folder.py:79 | `sorted(set(s))` on strings; SortedSetSpec and StrictlyAscendingUnique state what it holds |
| Seqs.SortedSetSpec | src/extract_from_folder.py:79 | `sorted(set(s))` is strictly ascending and holds exactly the elements of `s` |
| Seqs.StrictlyAscendingUnique | src/extract_from_folder.py:79 | two strictly ascending lists with the same elements are equal, so the format list is determined by its set |
| FileTree.Descendants | src/extract_from_folder.py:32 | every entry at any depth under a listing, each directory before its contents |
| FileTree.RGlob | src/extract_from_folder.py:32 | `folder.rglob("*")`: the descendants of a folder, itself excluded |
| FileTree.SizeSum | src/extract_from_folder.py:33-35 | the sum of the sizes of the files in a listing, directories counting nothing |
| FileTree.TreeSize | src/extract_from_folder.py:29-38 | the size of everything under a listing, by structural recursion; DescendantsSize ties it to the enumeration |
| FileTree.DescendantsSize | src/extract_from_folder.py:29-38 | summing the file sizes of the `rglob` enumeration gives the structural size of the tree |
| FileTree.GetFolderSize | src/extract_from_folder.py:29-38 | the loop total is the sum over the enumeration, and equals the sum of every file size at any depth |
| HumanSize.UnitFor | src/extract_from_folder.py:22-26 | from 1024 bytes on, the unit's power of 1024 is at most the count, and below PB the next power is above it |
| HumanSize.UnitForUnique | src/extract_from_folder.py:22-26 | exactly one unit satisfies those bounds |
| HumanSize.UnitForMonotone | src/extract_from_folder.py:22-26 | a larger count never gets a smaller unit |
| HumanSize.Divisions | src/extract_from_folder.py:22-26 | the loop divides once per unit up to TB and at most four times, so PB gets no division of its own |
| HumanSize.ReadableAsWritten | src/extract_from_folder.py:18-26 | bytes exactly below 1024; otherwise the unit is the one UnitFor brackets, the magnitude times 1024 to the number of divisions is the count, and the magnitude is at least 1 and is below 1024 exactly when the unit is not PB |
| HumanSize.DivideStep | src/extract_from_folder.py:23-24 | one more division by 1024 gives the quotient by the next power, and it is below 1024 exactly when the count is below the power after that |
| HumanSize.ReadableAt | src/extract_from_folder.py:22-26 | when a unit's powers bracket the count, the written rendering is the count divided as often as the loop divides for that unit |
| HumanSize.HumanReadableSize | src/extract_from_folder.py:18-26 | the unit loop, with its return after the loop, gives exactly ReadableAsWritten of the count |
| HumanSize.ReadableFor | src/extract_from_folder.py:18-26 | the corrected rendering: bytes exactly below 1024; otherwise the magnitude times the unit's power is the count, and the magnitude lies in [1, 1024) below PB |
| HumanSize.PetabyteMagnitude | src/extract_from_folder.py:22-26 | the written and corrected versions agree below 1024^5 bytes; from there on the written magnitude is 1024 times the true one |
| Films.IsVideo | src/extract_from_folder.py:62 | a regular file whose lower-cased suffix is in `VIDEO_EXTS`; VideoClassification states the selection it makes |
| Films.Extension | src/extract_from_folder.py:79 | `f.suffix.lower().lstrip('.')`; VideoExtension states its value for a video |
| Films.IsVideoTs | src/extract_from_folder.py:69 | a directory named `video_ts` in any letter case |
| Films.Files | src/extract_from_folder.py:55 | the direct files of a folder in listing order; FilesAndFoldersPartition and RecordCounts state what it holds |
| Films.Videos | src/extract_from_folder.py:62 | the video files among the direct files; VideoClassification states which |
| Films.Names | src/extract_from_folder.py:59 | the names of a listing, one per entry in order |
| Films.FirstVideoTs | src/extract_from_folder.py:67-71 | the result is the first subfolder named `video_ts` in any case, or none when no subfolder has that name |
| Films.FindVideoTs | src/extract_from_folder.py:67-71 | the search loop with `break` finds that same first match |
| Films.Subfolders | src/extract_from_folder.py:56 | every listed subfolder is a directory |
| Films.ScanFolders | src/extract_from_folder.py:50-52 | only directories are visited |
| Films.SizeOf | src/extract_from_folder.py:74-78 | the size column; DvdFolder and PlainFolderSize state it for both branches |
| Films.FormatOf | src/extract_from_folder.py:79-80 | the format of some video files; FormatOfListing states it |
| Films.FormatField | src/extract_from_folder.py:74-80 | the format column; FormatIsDvdIff and PlainFolderFormat state it |
| Films.FolderRecordOf | src/extract_from_folder.py:54-103 | the record of one folder, with the size text as written; its properties are RecordCounts, VideoClassification, DvdFolder, PlainFolderSize, PlainFolderFormat, RecordSizeText and RecordHasSubfolders |
| Films.RecordsOf | src/extract_from_folder.py:50-103 | one record per visited folder, in visiting order |
| Films.ScanOf | src/extract_from_folder.py:41-105 | the records of the visited folders and the counter; ScanRecords and FoldersWithSubfoldersCount state them |
| Films.ExamineFolder | src/extract_from_folder.py:54-103 | the loop body builds exactly the record the specification function gives for the folder |
| Films.ExamineFilms | src/extract_from_folder.py:41-105 | the scan fails exactly when the root is missing or not a directory; otherwise the records and counter equal the specification |
| Films.RecordSizeText | src/extract_from_folder.py:82 | a record's size text is exact bytes below 1024; below 1024^5 bytes it equals the corrected rendering, and from there on it is labelled PB with a magnitude of 1024 or more |
| Films.FilesAndFoldersPartition | src/extract_from_folder.py:55-56 | files and directories together account for every child |
| Films.RecordCounts | src/extract_from_folder.py:55-64 | the counts equal their name lists' lengths, there are no more videos than files, and the files and subfolders split the children by multiplicity |
| Films.VideoClassification | src/extract_from_folder.py:62-64 | video names are file names at increasing positions, and a file is a video exactly when its lower-cased suffix is in `VIDEO_EXTS` |
| Films.VideoExtsShape | src/extract_from_folder.py:12-15 | every recognised suffix is a dot followed by a lower-case letter or a digit |
| Films.VideoExtension | src/extract_from_folder.py:79 | a video's format entry, put back behind a dot, is its recognised suffix, so it is non-empty and starts with a lower-case letter or a digit |
| Films.DvdFolder | src/extract_from_folder.py:67-76 | with a `video_ts` subfolder, the format is "DVD" and the size is that of everything under the first such subfolder |
| Films.PlainFolderSize | src/extract_from_folder.py:78 | without `video_ts`, the size is the sum of the direct videos, which is at most that of all direct files |
| Films.FormatOfListing | src/extract_from_folder.py:79-80 | the format of some video files is the strictly ascending listing of their extensions joined by "; ", and it is empty exactly when there are no videos |
| Films.PlainFolderFormat | src/extract_from_folder.py:79-80 | without `video_ts`, the format is the strictly ascending list of extensions joined by "; ", and it is empty exactly when there are no videos |
| Films.FormatIsDvdIff | src/extract_from_folder.py:66-80 | the format reads "DVD" exactly when a `video_ts` subfolder exists |
| Films.ScanRecords | src/extract_from_folder.py:50-52 | one record per root directory, counted with multiplicity and nothing else, ordered by lower-cased name |
| Films.ScanTiesKeepOrder | src/extract_from_folder.py:50 | folders whose names differ only in letter case keep the root's listing order |
| Films.RecordHasSubfolders | src/extract_from_folder.py:85-89 | a folder's record has a subfolder exactly when the folder has a directory child |
| Films.CountSubfolderRecords | src/extract_from_folder.py:85-89 | the number of records with a subfolder equals the number of folders with a directory child |
| Films.FoldersWithSubfoldersCount | src/extract_from_folder.py:85-89 | the counter is the number of root directories that have a directory child, whatever the listing order |
| Films.TwoFolderExample | src/extract_from_folder.py:41-105 | a root listing Beta (one 2048-byte mp4 and an empty subfolder) before an empty Alpha gives the Alpha row, then the Beta row ("2.0 KB", "mp4"), and a counter of 1 |

## Left out

- The file system is a snapshot.
  - `exists`, `is_dir`, `iterdir`, `rglob` and `stat` read the tree.
  - The `OSError` that `get_folder_size` swallows cannot happen in it.
  - The `f.exists()` check in the size sum always holds, so the race between listing and `stat` is not modelled.
- Entries other than regular files and directories are not modelled. This includes symbolic links, devices and broken links.
- The root error keeps no message. A missing or non-directory root gives `Failure(NotFound)` without the text of the `FileNotFoundError`.
- Text.Lower: lower-cases ASCII and Latin-1 capitals only, not the full Unicode table of `str.lower`.
- Text.Suffix: follows the final-dot rule of current `pathlib`. The treatment of names such as `a.` or `..` in other Python versions is not modelled.
- HumanSize.ReadableAsWritten: keeps the exact magnitude and unit, and so does the corrected HumanSize.ReadableFor.
  - The one-decimal float rendering of `:3.1f` / `:.1f` is not modelled.
  - Float rounding is not modelled.
  - The `OverflowError` that float division raises from 2^1024 bytes on is not modelled.
- Films.FolderRecordOf: keeps the three name columns as lists of names. `examine_films` joins each list with `"; "` into one string (lines 95, 97 and 102), the same `Text.Join` the format column uses, and the record does not apply that join. A name that itself contains `"; "` is therefore told apart in the model but not in the joined cell.
- `write_csv` is not modelled: creating the directory, opening the file, and `csv.DictWriter` output are I/O.
- The `__main__` block is not modelled: hard-coded paths, the printed summary, and the catch-all `except`.

## Findings

| source | as written | input that shows it | evidently intended | confidence | as-written member | corrected member |
|---|---|---|---|---|---|---|
| src/extract_from_folder.py:22-26 | after the TB step fails, the quotient by 1024^4 is labelled PB without a fifth division | 1125899906842624 bytes (1024^5) reads "1024.0 PB" | divide once more before labelling PB, giving "1.0 PB" | high, not executed | HumanSize.PetabyteMagnitude | HumanSize.ReadableFor |

The scan keeps the rendering as written. Films.RecordSizeText relates the
size text of each record to the corrected rendering.
