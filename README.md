# ExcelMerger core, modelled in Dafny

ExcelMerger walks an input folder of image-analysis exports. Each subfolder
holds CSV files named after a mouse, an optional view number, a cell kind
(`ribeyes` or `microglia`) and a retinal position (`gcl`, `opl+ipl`, ...).
`build_summary` in `excel_merger_app.py` turns those files into one row per
`(mouse, view, position)`. Each row holds the first number of a ribeyes
file and of a microglia file for that key; when several files of one kind
resolve to the same key, the one read last wins. The rows keep the order in
which their keys were first met. This project models that core and proves what it does:

- `strings.dfy` (module `Strings`): ASCII versions of the Python string
  operations the core uses (`lower`, `strip`, `replace`, `split`, `join`,
  `startswith`, `endswith`, `in`).
- `order.dfy` (module `Order`): lexicographic order and a stable insertion
  sort, which stands for `list.sort(key=...)`. It proves that the sort is
  sorted, a permutation and stable.
- `natural_sort.dfy` (module `NaturalSort`): `natural_key`, that is
  `re.split(r"(\d+)")` with numbers compared as integers and text in lower
  case.
- `position.dfy` (module `Position`): `normalize_position`.
- `name_grammar.dfy` (module `NameGrammar`): `NAME_RE` as a backtracking
  matcher, a declarative grammar it is proved against, and `parse_from_name`.
- `discovery.dfy` (module `Discovery`): `list_all_dirs` and
  `list_csv_in_dir`, as loops over a directory tree given as a value.
- `summary.dfy` (module `Summary`): the ordered dictionary, as the class
  `SummaryTable` whose fields are updated in place, and `build_summary`,
  as a method with two nested loops.

Each loop is proved against a function on values. `BuildSummary` produces
`Summarize(top, read) = Fold(Readings(AllDirs(top), ...))`. The lemmas
about `Fold`, `Readings`, `AllDirs`, `CsvNames`, `Resolve` and
`ParseFromName` state what the program promises.

`first_float_in_first_column` is not modelled. It is the parameter
`read: seq<string> -> Option<real>`, which maps a file's path below the
input folder to the number read from it.

Where the code and the repository's description of it differ, the model
follows the code:

- The description says `normalize_position` removes all whitespace and is
  idempotent. The code removes only the space character (`replace(" ", "")`),
  after `strip()` has trimmed every kind of whitespace at the ends. A tab
  between two `+` therefore survives as a segment, and normalising again
  changes the result. `Position.TabBreaksIdempotence` shows this with
  `a+\t+b`. `Position.NormalizeIdempotent` proves idempotence for tags whose
  only whitespace is the space.
- The description's example folder `p5-foo(ribeyes-gcl)` does not match
  `NAME_RE`, because the pattern requires a `_` after `)`. The example file
  `unrelated_0007(microglia-gcl)_Statistics.csv` does not match either,
  because it does not start with `p<digits>-`. In that folder the file is
  skipped. With the folder named `p5-foo(ribeyes-gcl)_`, the key is
  `(p5, /, gcl)` as described. The kind is `microglia`, taken from the
  words of the file name, and the folder's own `ribeyes` is ignored.
  `Summary.FolderPrecedenceExample` proves both cases.
- The same space-only removal means that reordering segments can change the
  result once a segment holds a tab: `Position.TabBreaksPermutation` shows
  `a+\t+b` and `\t+a+b` normalising differently. The description promises
  order independence for all inputs; `Position.NormalizePermutationInvariant`
  proves it for segments whose only whitespace is the space.
- The description says no exception ends the scan. In the code,
  `first_float_in_first_column` (line 113) opens each file with strict
  `utf-8-sig` decoding and no `try`, and `build_summary` calls it without one
  (line 196). A file that cannot be opened or decoded, or a folder named
  `*.csv`, raises and ends the whole `build_summary`. The model's `read`
  always returns a value, so it does not capture this (see "Left out").

## Model

| member | source | states |
|---|---|---|
| Strings.Split | excel_merger_app.py:62 | `str.split` on one character gives at least one part, and no part contains the separator |
| Strings.SplitJoin | excel_merger_app.py:62-64 | splitting what `"+".join` built gives back the parts when no part holds the separator |
| Strings.StripLeft | excel_merger_app.py:60 | the result is a suffix of the input; only whitespace was removed, and it starts with a non-space |
| Strings.StripRight | excel_merger_app.py:60 | the result is a prefix of the input; only whitespace was removed, and it ends with a non-space |
| Strings.RemoveAll | excel_merger_app.py:60 | `replace(" ", "")` leaves no space, and a character occurs in the result exactly when it occurs in the input and is not the space |
| Strings.RemoveAllCount | excel_merger_app.py:60 | every character other than the removed one occurs in the result as often as in the input, and the removed one not at all |
| Strings.RemoveAllConcat | excel_merger_app.py:60 | removing from a concatenation is removing from each part, so the kept characters stay in their order |
| Strings.LowerChar | excel_merger_app.py:60 | `lower()` maps each capital `A`-`Z` to the small letter at the same place in the alphabet and leaves every other character unchanged |
| Order.SortBy | excel_merger_app.py:63 | sorting returns a permutation of its input |
| Order.SortSorted | excel_merger_app.py:63 | under a total preorder the result is sorted |
| Order.SortStable | excel_merger_app.py:139 | elements with equal keys keep their input order, as Python's stable sort does |
| Order.SortedUnique | excel_merger_app.py:63 | under a total order there is one sorted permutation, so the sort result is determined |
| Order.SortIdentity | excel_merger_app.py:63 | sorting an already sorted list under a total order changes nothing |
| Order.StrLeTotalOrder | excel_merger_app.py:63 | Python string comparison is a total order |
| NaturalSort.SplitDigits | excel_merger_app.py:44 | `re.split(r"(\d+)")` returns an odd number of pieces |
| NaturalSort.SplitDigitsSpec | excel_merger_app.py:44 | the pieces join back to the name, with text at even indices and maximal digit runs at odd ones |
| NaturalSort.DigitSplitUnique | excel_merger_app.py:44 | any decomposition with those properties is the one the split returns |
| NaturalSort.NaturalKey | excel_merger_app.py:42-44 | the key alternates text and numbers, and its text has no digit and no upper case |
| NaturalSort.NaturalKeyOfSplit | excel_merger_app.py:42-44 | each digit run becomes its integer value and each text piece its lower-case form |
| NaturalSort.KeyLeTotalOrder | excel_merger_app.py:139 | comparing keys as Python compares lists is a total order |
| NaturalSort.NameLeTotalPreorder | excel_merger_app.py:139 | comparing names by their keys is a total preorder |
| NaturalSort.NumberDecides | excel_merger_app.py:42-44 | two keys that agree up to a number chunk compare by that number, whatever follows it |
| NaturalSort.NaturalOrderExample | excel_merger_app.py:42-44 | `img1 < img2 < img10` in natural order, though `img10 < img2` as plain text |
| NaturalSort.NaturalSortExample | excel_merger_app.py:150 | sorting `img2, img10, img1` by the natural key gives `img1, img2, img10` |
| Position.NormalizeShape | excel_merger_app.py:58-65 | `None` gives `""`; the result has no upper case and no space; a tag without `+` is only cleaned; otherwise the result is the sorted non-empty segments joined by `+`, or `""` if none survive |
| Position.NormalizeSegments | excel_merger_app.py:60-64 | a tag of two or more segments normalises to its tidied, non-empty segments, sorted and joined by `+`, for segments whose only whitespace is the space |
| Position.NormalizePermutationInvariant | excel_merger_app.py:61-64 | any reordering of the same segments normalises to the same string, for segments whose only whitespace is the space |
| Position.NormalizeIdempotent | excel_merger_app.py:51-65 | normalising twice equals normalising once, when the space is the only whitespace |
| Position.TabBreaksIdempotence | excel_merger_app.py:60-64 | with a tab between two `+`, normalising twice differs from normalising once |
| Position.TabBreaksPermutation | excel_merger_app.py:60-64 | the segments `a`, tab, `b` and tab, `a`, `b` are the same, but they normalise to `\t+a+b` and to `a+b` |
| Position.CompositeExample | excel_merger_app.py:56-64 | `" OPL + IPL "` becomes `ipl+opl` |
| Position.SwappedExample | excel_merger_app.py:61-64 | `opl+ipl` becomes `ipl+opl` |
| Position.NormalExample | excel_merger_app.py:61-64 | `ipl+opl` stays `ipl+opl` |
| Position.LonePlusExample | excel_merger_app.py:61-64 | a lone `+` leaves no segment and becomes `""` |
| Position.PlainExample | excel_merger_app.py:60 | `" GCL "` becomes `gcl` |
| Position.CleanFixed | excel_merger_app.py:60 | a tag with no space and no upper case is left unchanged by cleaning |
| NameGrammar.LazyScan | excel_merger_app.py:78 | `.*?` stops at the first position where the rest matches, never crossing a newline; if it fails, no position it could reach matches |
| NameGrammar.RestSound | excel_merger_app.py:79-86 | what the matcher accepts after the filler fits the grammar and spells out its capture |
| NameGrammar.RestComplete | excel_merger_app.py:79-86 | the matcher accepts every text after the filler that fits the grammar, with that capture |
| NameGrammar.MatchSound | excel_merger_app.py:75-89 | a match fits the grammar and rebuilds the whole name |
| NameGrammar.MatchComplete | excel_merger_app.py:75-89 | every name that fits the grammar matches, with a filler no longer than the one it was built with |
| NameGrammar.Determined | excel_merger_app.py:75-89 | two decompositions of one name whose fillers have the same length are equal |
| NameGrammar.MatchSpec | excel_merger_app.py:75-89 | `NAME_RE.match` fails exactly when no decomposition fits, and otherwise returns the unique one with the shortest filler |
| NameGrammar.UnambiguousParse | excel_merger_app.py:75-89 | a name whose filler holds no `_` or `(` parses back to the parts it was built from |
| NameGrammar.FirstStop | excel_merger_app.py:78 | a built name parses back to its parts when no shorter filler lets the rest match |
| NameGrammar.ExtractFields | excel_merger_app.py:102-106 | the mouse is `p` plus its digits in lower case; the view is `/` exactly when absent, else 3-6 digits; the kind is `microglia` or `ribeyes`; the position is normalised |
| NameGrammar.ParseFromNameSpec | excel_merger_app.py:92-106 | `parse_from_name` returns `None` exactly on names the grammar rejects, and otherwise the fields above |
| NameGrammar.DetailedExample | excel_merger_app.py:75-106 | `p3-xyz_000123(microglia-opl+ipl)_Detailed.csv` parses to `(p3, 000123, ipl+opl, microglia)` |
| NameGrammar.LongRunExample | excel_merger_app.py:79 | a 7-digit run is not a view: `p1-a_0001234(ribeyes-gcl)_` has view `/` |
| NameGrammar.NoBracketExample | excel_merger_app.py:80-84 | `p3-xyz_Detailed.csv` has no `(kind-pos)` and does not parse |
| NameGrammar.NoUnderscoreExample | excel_merger_app.py:85 | the `_` after `)` is required: `p5-foo(ribeyes-gcl)` does not parse |
| NameGrammar.FolderWithUnderscoreExample | excel_merger_app.py:75-106 | `p5-foo(ribeyes-gcl)_` parses to `(p5, /, gcl, ribeyes)` |
| Discovery.Keep | excel_merger_app.py:137-149 | filtering keeps exactly the elements that pass the test |
| Discovery.KeepConcat | excel_merger_app.py:137-149 | filtering a concatenation filters each part, so the kept elements stay in their input order |
| Discovery.Walk | excel_merger_app.py:135 | `os.walk` yields the top folder first |
| Discovery.WalkReaches | excel_merger_app.py:135-136 | the walk visits a folder exactly when it is reachable by a path of non-hidden names |
| Discovery.ReachableVisible | excel_merger_app.py:136 | no folder reached by the walk lies below a folder whose name starts with `.` |
| Discovery.ListAllDirs | excel_merger_app.py:133-140 | the loop returns `AllDirs(top)`: the walked folders except the top one, sorted by the natural key of their relative path |
| Discovery.AllDirsMembers | excel_merger_app.py:133-140 | a folder is listed exactly when it is below the top and reachable through non-hidden folders |
| Discovery.AllDirsVisible | excel_merger_app.py:136 | no listed folder has a hidden name on its path |
| Discovery.AllDirsSorted | excel_merger_app.py:137-139 | the list is sorted by natural order and is a permutation of the walk without its top folder |
| Discovery.AllDirsStable | excel_merger_app.py:139 | folders whose relative paths have equal keys stay in walk order |
| Discovery.FoundLeTotalPreorder | excel_merger_app.py:139 | the sort key of a folder is a total preorder |
| Discovery.ListCsvInDir | excel_merger_app.py:143-151 | the loop returns `CsvNames(d)`: the listed entries that do not start with `~$` and end in `.csv` in any case, in natural order |
| Discovery.CsvNamesMembers | excel_merger_app.py:143-151 | a name is returned exactly when it is a file or subfolder of the folder and passes the test |
| Discovery.CsvNamesSorted | excel_merger_app.py:150 | the names are in natural order, and each passing entry appears as often as it is listed |
| Discovery.CsvNamesStable | excel_merger_app.py:150 | names with equal keys stay in listing order |
| Discovery.CsvNameExamples | excel_merger_app.py:146-148 | `a.csv` and `a.CSV` pass; `~$a.csv`, `a.csv.bak` and `csv` do not |
| Summary.ResolveKinds | excel_merger_app.py:168-194 | a file that is not skipped is a ribeyes or a microglia file |
| Summary.FolderDecides | excel_merger_app.py:169-194 | when the folder name parses, it fixes mouse, view and position; the file is kept exactly when its name parses or names a kind, and a parsed name gives the kind |
| Summary.FileDecides | excel_merger_app.py:180-184 | when the folder name does not parse, a file is kept exactly when its own name parses, and that parse gives the key and kind |
| Summary.FallbackByWords | excel_merger_app.py:186-194 | in a folder whose name parses, for an unparsed file name, `ribeyes` wins over `microglia`, and a name containing neither is skipped |
| Summary.FolderPrecedenceExample | excel_merger_app.py:158-194 | a file in `p5-foo(ribeyes-gcl)` is skipped; in `p5-foo(ribeyes-gcl)_` it goes to `(p5, /, gcl)` as microglia |
| Summary.PutOk | excel_merger_app.py:199-213 | one write keeps the table well formed: keys distinct, order and map agree, each row repeats its key, no engulfment value |
| Summary.PutFrame | excel_merger_app.py:199-213 | one write leaves other keys' rows, the other kind's cell and the existing order unchanged |
| Summary.FoldOk | excel_merger_app.py:155-215 | any sequence of writes leaves the table well formed |
| Summary.FoldKeys | excel_merger_app.py:199-208 | a key has a row exactly when some write carries it |
| Summary.FoldOrder | excel_merger_app.py:155-208 | keys are in the order in which they were first written |
| Summary.FoldLatest | excel_merger_app.py:210-213 | a cell holds the value of the last write to it, `None` included |
| Summary.FoldUnwritten | excel_merger_app.py:201-208 | a cell never written to stays `None` |
| Summary.FoldExample | excel_merger_app.py:199-213 | three writes to two keys give two rows in order, with the right cells filled; a `None` write still creates its key's row |
| Summary.FolderReadingsMembers | excel_merger_app.py:173-196 | a folder's writes come from its CSV files, and every kept file gives one |
| Summary.EmptyFolder | excel_merger_app.py:164-166 | a folder without CSV files adds no write |
| Summary.ReadingsMembers | excel_merger_app.py:158 | a write is in the run exactly when one of the listed folders gives it |
| Summary.SummaryKeys | excel_merger_app.py:154-215 | the summary has a row for a key exactly when a CSV file in a listed folder resolves to it |
| Summary.SummaryWellFormed | excel_merger_app.py:154-215 | each key appears once, each row repeats its key, and no engulfment value is ever set |
| Summary.SummaryTable.constructor | excel_merger_app.py:155 | `OrderedDict()` starts empty |
| Summary.SummaryTable.Record | excel_merger_app.py:199-213 | a new key gets a row at the end of the order, then the kind's cell is set; the table stays well formed |
| Summary.RecordFolder | excel_merger_app.py:168-213 | the inner loop applies the folder's writes, one per kept CSV file in order |
| Summary.BuildSummary | excel_merger_app.py:154-215 | the method builds a fresh, well-formed table equal to `Summarize(top, read)` |

## Left out

- `app_dir`, `ensure_folders`, `write_excel` and `main` are not part of this model. They locate folders, create them, write the workbook with openpyxl and report to the user.
- `first_float_in_first_column` is not modelled. It is the parameter `read`, because it opens and decodes files and parses floating-point text.
- The file system is a value, `Dir`: a tree of names in listing order. `os.walk` and `os.listdir` become functions on it. Symbolic links, permission errors and changes during the walk are not modelled.
- The listing order of `os.listdir` is whatever the tree holds, except that `Listing` always puts a folder's files before its subfolders, while `os.listdir` may interleave them. The sorts make the outcome independent of the listing order, except between names with equal natural keys. So the file-first order matters only when a file and a subfolder named `*.csv` have equal keys.
- `os.path.relpath` is modelled as the path's names joined with `/`. The Windows separator is not modelled.
- `list_csv_in_dir` returns full paths in the source; the model returns the names, and `BuildSummary` builds the path only when it reads a file.
- A subdirectory whose name ends in `.csv` is listed by `os.listdir` and kept by the model too. The model then passes it to `read`, where the program would fail to open it and stop.
- Summary.BuildSummary: an exception raised while reading a file aborts the whole `build_summary`, and the model does not capture this. Such an exception comes from a file that cannot be opened, from one that is not valid UTF-8, or from a folder named `*.csv`. `read` is a total function, so `Summarize` returns a table where the program returns none.
- Character classes are ASCII: `lower()`, `isdigit()`, `\d`, `strip()` and IGNORECASE are modelled on ASCII letters, digits and whitespace. Unicode digits and case mappings beyond ASCII are not.
- Order.SortBy: `list.sort` is modelled as a stable insertion sort. Only its result is modelled (sorted, a permutation, stable, hence unique), not Timsort's steps.
- The natural key compares text chunks by code point, as Python does. Comparing an integer with a string cannot arise, because numbers and text alternate at fixed positions.
- Position.NormalizeIdempotent: idempotence is proved only for tags whose whitespace is the space character, because it is false in general (see `Position.TabBreaksIdempotence`).
- Position.NormalizeSegments: the sorted-segments form is proved only for segments whose whitespace is the space character. It is false in general: the segments tab, `a`, `b` join to `\t+a+b`, which normalises to `a+b` rather than to the sorted segments `\t+a+b`, because `strip()` trims the leading tab (see `Position.TabBreaksPermutation`).
- Position.NormalizePermutationInvariant: order independence is proved only for segments whose whitespace is the space character. It is false in general, because `strip()` trims a tab at either end of the whole tag but `replace(" ", "")` leaves an inner one (see `Position.TabBreaksPermutation`).
- The values of the summary are `Option<real>`. A Python float's rounding is not modelled, nor are the `nan`, `inf` and `-inf` values that `float()` accepts from a cell in `first_float_in_first_column` (lines 113-126).
