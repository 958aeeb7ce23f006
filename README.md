# SDG toolkit: progress tabulation and metadata filter, in Dafny

This project models the data-handling core of two scripts from the SDG data toolkit of the
Government of Canada. It proves what each one computes. The YAML files reach the model already
parsed, and file I/O, pandas and matplotlib are gone.

- **The progress lollipop chart** (`progress/python/lollipop.py`), modelled in `Lollipop.dfy`. This
  covers:
  - each indicator's goal (the id up to the first `-`);
  - the filter down to the five measured progress statuses;
  - `status2level` and `score2level`;
  - the count of indicators per (goal, status) group, with each group's chart level;
  - the pivoted goal-by-status table that is written to CSV, sorted by integer goal, with renamed
    columns;
  - the total `ntot`, the largest group `nmax`, and the span of levels each goal's lollipop line
    covers.

  These are pure functions, so the model is functions and lemmas over sequences. A data frame is a
  sequence of rows.
- **The metadata filter** (`metadata_yaml_filter.py`), modelled in `MetadataFilter.dfy`. This
  covers:
  - the index of indicator-config files by stem;
  - the source-organisation set of each metadata file, and the rule that keeps an indicator when
    that set is empty or not a subset of `gc_orgs`;
  - the projection of the metadata and indicator-config keys into `meta`;
  - the translation table of `filename.key` entries, and the one-pass substitution of values that
    are table keys;
  - the `meta.txt` report: one block per indicator of the selected goals, in `meta` order.

  The script updates dictionaries in loops, so each of its loops is a `method` with loop
  invariants. Each method is proved equal to a functional specification (`MetaSpec`,
  `TranslationSpec`, `ApplySpec`, `ReportSpec`). The properties the script promises are proved as
  lemmas about those specifications. `FilterMetadata` chains the four loops and is proved equal to
  `FilterSpec`.

The supporting modules are:

- `Wrappers.dfy`: `Option` and `Result`.
- `Strings.dfy`: the Python string operations both scripts use. These are `split(sep)[0]`,
  `os.path.basename`, `rstrip`, `startswith`, code-point string order and `int()` of a digit
  string.
- `OrderedDicts.dfy`: a Python `dict` with its insertion order. Re-assigning a key keeps the key's
  position. Adding a key appends it.

The exceptions modelled, as error values, are these (the ones not modelled are listed under
"## Left out"):

- `SourceNotText`: `rstrip` on a source value that is not a string.
- `MissingConfig`: the `KeyError` for an indicator without a config file.
- `ValueNotText`: `rstrip` on a report value that is not a string.
- An `Err` of the pivot: `int()` of a goal that is not a number.

The report is modelled as the sequence of strings the script writes with `f.write`, each without
its final newline; a field value may itself hold newlines, so one such element can span several
lines of `meta.txt`. A run that fails while writing the report keeps what was written so far;
the `with` block closes the file at that point.

## Model

| member | source | states |
|---|---|---|
| Lollipop.StatusToLevel | progress/python/lollipop.py:32-44 | a status has a level exactly when it is one of the five measured statuses; the level is the status's position in deterioration, limited, moderate, substantial, target achieved, so it is 0..4 and injective |
| Lollipop.StatusToLevelOrder | progress/python/lollipop.py:32-44 | between measured statuses, string order and level order agree (pandas orders columns by string, the chart by level) |
| Lollipop.ScoreToLevel | progress/python/lollipop.py:46-58 | `target_achieved` gives 4; a number gets a level exactly when it is in [-5, 5], and that level is at most 3 |
| Lollipop.ScoreBuckets | progress/python/lollipop.py:51-58 | on [-5, 5] the buckets are [-5,-2.5)→0, [-2.5,0)→1, [0,2.5)→2 and [2.5,5]→3, in both directions, so 5 maps to 3 |
| Lollipop.ScoreToLevelMonotone | progress/python/lollipop.py:51-58 | a higher score in [-5, 5] never gets a lower level |
| Lollipop.GoalOf | progress/python/lollipop.py:25 | the goal is `id.split('-')[0]`: a prefix of the id with no `-` in it, followed in the id by `-` when it is shorter |
| Lollipop.GoalOfSegments | progress/python/lollipop.py:25 | an id without `-` is its own goal; `goal-rest` has goal `goal` |
| Lollipop.MeasuredMembers | progress/python/lollipop.py:29 | the kept rows are exactly the rows whose status is one of the five measured statuses |
| Lollipop.MeasuredCounts | progress/python/lollipop.py:29 | every occurrence of a measured row is kept and no other row is |
| Lollipop.MeasuredAppend | progress/python/lollipop.py:29 | the filter keeps the rows' relative order: filtering a concatenation concatenates the filtered parts |
| Lollipop.ProgressMeasured | progress/python/lollipop.py:25-29 | the measured table built from the file has one row per file entry with a measured status |
| Lollipop.GroupKeysSpec | progress/python/lollipop.py:61 | the group keys are sorted by (goal, status) and are exactly the keys some row has |
| Lollipop.GroupByCounts | progress/python/lollipop.py:61 | groups in strictly ascending key order, each count the number of rows in it and at least 1, and a group for every key that occurs |
| Lollipop.GroupByTotal | progress/python/lollipop.py:74 | the `number` column sums to the number of rows that have a status |
| Lollipop.Levels | progress/python/lollipop.py:63 | the `score` column has one level per group, `status2level` of its status, and for measured groups every level is present and in 0..4 |
| Lollipop.TabulateFacts | progress/python/lollipop.py:61-74 | from the file's entries: every group is measured, counted and non-empty, with a level in 0..4, and `ntot` is the number of file entries with a measured status |
| Lollipop.MaxNumber | progress/python/lollipop.py:120 | `nmax` (also l.181) is at least every group count and is the count of some group; it is missing exactly for an empty table |
| Lollipop.GoalSpanNone | progress/python/lollipop.py:176-177 | a goal's span (also l.106-108) is missing exactly when the goal has no group |
| Lollipop.GoalSpanBounds | progress/python/lollipop.py:176-177 | min ≤ max, and every group of the goal has a level between them |
| Lollipop.GoalSpanAttained | progress/python/lollipop.py:176-177 | the min and the max are each the level of some group of the goal |
| Lollipop.GoalIndex | progress/python/lollipop.py:67 | the pivot index lists exactly the goals present, sorted as strings, each once |
| Lollipop.StatusColumns | progress/python/lollipop.py:67 | the pivot columns list exactly the statuses present, sorted as strings, each once |
| Lollipop.MeasuredColumnsByLevel | progress/python/lollipop.py:67-70 | for measured groups the columns are measured statuses in ascending chart level |
| Lollipop.PivotCellIsCount | progress/python/lollipop.py:67 | each cell is the count of its (goal, status) group, and NaN exactly when no indicator falls in it |
| Lollipop.CellsOfCounts | progress/python/lollipop.py:67 | on the grouped table, a goal's row holds per column the count of that (goal, status) group, or NaN when no indicator falls in it |
| Lollipop.PivotRows | progress/python/lollipop.py:67-68 | `astype(int)` fails exactly when some goal is not a digit string; otherwise one row per goal with its integer value and cells |
| Lollipop.Renamed | progress/python/lollipop.py:70 | one name per column; a measured column gets its title from the fixed five-entry map, others keep their name, and distinct measured columns get distinct titles |
| Lollipop.SortByGoalSorts | progress/python/lollipop.py:69 | the sorted rows are in ascending integer goal order and are a permutation of the rows |
| Lollipop.PivotSpec | progress/python/lollipop.py:67-70 | the CSV table fails exactly when a goal is not an integer; otherwise it has the renamed columns and one row per goal present, ascending by integer goal, its rows are, up to order, exactly the rows built for each goal of the goal index (as a multiset), with each cell the group count |
| Strings.BeforeFirst | metadata_yaml_filter.py:62 | `split(sep)[0]` is a prefix without `sep`, followed in the string by `sep` when shorter |
| Strings.BeforeFirstUnique | metadata_yaml_filter.py:62 | those three facts determine `split(sep)[0]` |
| Strings.AfterLastSuffix | metadata_yaml_filter.py:62 | the basename is a suffix of the path, preceded by `/` unless it is the whole path |
| Strings.Basename | metadata_yaml_filter.py:62 | a basename holds no `/` |
| Strings.Stem | metadata_yaml_filter.py:52 | a file's id holds no `/` and no `.` |
| Strings.RStripSpec | metadata_yaml_filter.py:66 | `rstrip` leaves a prefix that does not end in whitespace, and removes only whitespace |
| Strings.RStripBlank | metadata_yaml_filter.py:108 | a value is blank after `rstrip` exactly when it is all whitespace |
| Strings.RStripIdempotent | metadata_yaml_filter.py:66 | stripping trailing whitespace twice gives the same as stripping once |
| Strings.StartsWith | metadata_yaml_filter.py:66 | `s.startswith(p)` holds exactly when `p` is no longer than `s` and `s` begins with `p` |
| Strings.StrLessTotal | progress/python/lollipop.py:61 | string order, used for group keys and pivot labels, is total; `StrLessTransitive` and `StrLessIrreflexive` give the other order laws |
| Strings.ParseNat | progress/python/lollipop.py:68 | `int()` succeeds exactly on a non-empty digit string |
| Strings.ParseDecimal | progress/python/lollipop.py:68 | `int(str(n)) == n` |
| OrderedDicts.Empty | metadata_yaml_filter.py:72 | `{}` is a well-formed dict with no keys and an empty insertion order |
| OrderedDicts.ODict.Put | metadata_yaml_filter.py:76-82 | `d[k] = v` keeps the dict well formed and sets `k` to `v`; a key already present keeps its position and a new key is appended to the insertion order |
| MetadataFilter.ConfigIndex | metadata_yaml_filter.py:52 | the config index has an entry for exactly the stems of the config files |
| MetadataFilter.ConfigIndexLast | metadata_yaml_filter.py:52 | a stem's config is the last config file with that stem |
| MetadataFilter.SourcesSpec | metadata_yaml_filter.py:66-70 | reading the sources fails exactly when a `source_organisation*` value is not a string (`rstrip` raises); otherwise the set is empty exactly when there is no such key, and holds only right-stripped names |
| MetadataFilter.SourcesEmpty | metadata_yaml_filter.py:66-70 | a readable source set is empty exactly when the file has no `source_organisation*` key, so the `len(sources) == 0` test keeps exactly the files without one |
| MetadataFilter.SourcesStripped | metadata_yaml_filter.py:66-70 | every source in the set is already right-stripped, so the `issubset` test sees stripped names |
| MetadataFilter.SourcesIgnoresOthers | metadata_yaml_filter.py:66 | keys that are not `source_organisation*` keys, whatever their values, do not change the source set |
| MetadataFilter.SourcesExample | metadata_yaml_filter.py:66 | trailing whitespace is stripped and other keys are ignored |
| MetadataFilter.SelectedIff | metadata_yaml_filter.py:70 | an indicator is kept exactly when it has no source or some source outside `gc_orgs` |
| MetadataFilter.SelectionExamples | metadata_yaml_filter.py:70 | a GC organisation alone is dropped; one non-GC source keeps it; no source keeps it |
| MetadataFilter.ProjectSpec | metadata_yaml_filter.py:74-76 | projecting fresh distinct keys appends the present ones in key order with their values, and keeps the rest of the record |
| MetadataFilter.ProjectKeys | metadata_yaml_filter.py:74-76 | the loop over the keys builds exactly the projection (the loop at l.80-82 is the same) |
| MetadataFilter.MetaPartSpec | metadata_yaml_filter.py:74-76 | the metadata part of a record holds exactly the `meta_keys` present, in order, with their values |
| MetadataFilter.ConfigPartSpec | metadata_yaml_filter.py:80-82 | the config keys are appended after the metadata part without disturbing it |
| MetadataFilter.RecordOfSpec | metadata_yaml_filter.py:72-82 | a record holds exactly the `meta_keys` present in the metadata then the `indicator_config_keys` present in the config, with their original values |
| MetadataFilter.MetaStepSpec | metadata_yaml_filter.py:62-82 | one file's turn succeeds exactly when its sources are strings and, if it is selected, its config exists; it adds the file's id exactly when selected |
| MetadataFilter.MetaStepEntries | metadata_yaml_filter.py:72-82 | a selected file's turn stores its record under its id; an unselected one changes nothing |
| MetadataFilter.MetaSpecValid | metadata_yaml_filter.py:61-82 | every record in `meta` is a well-formed dict |
| MetadataFilter.AllAdmissibleIff | metadata_yaml_filter.py:61-82 | the recursive admissibility predicate holds exactly when every file is admissible |
| MetadataFilter.MetaSpecOk | metadata_yaml_filter.py:61-82 | the metadata loop finishes exactly when every file is admissible, so a selected indicator without a config file is an error |
| MetadataFilter.SelectedIdsSpec | metadata_yaml_filter.py:70-72 | an id is selected exactly when some selected file has it as stem |
| MetadataFilter.MetaSpecKeys | metadata_yaml_filter.py:70-72 | `meta` holds exactly the ids of the selected files |
| MetadataFilter.MetaSpecRecord | metadata_yaml_filter.py:61-82 | an indicator's record comes from its last selected metadata file and its config |
| MetadataFilter.MetaSpecErrStays | metadata_yaml_filter.py:61-82 | once the loop has raised, later files do not matter |
| MetadataFilter.CollectMeta | metadata_yaml_filter.py:52-82 | the config index and the metadata loop compute `MetaSpec` of the files |
| MetadataFilter.CompositeSplit | metadata_yaml_filter.py:93 | `filename.key` splits back into its file name and key |
| MetadataFilter.CompositeInjective | metadata_yaml_filter.py:93 | files with different names never write the same composite key |
| MetadataFilter.AddFileEntries | metadata_yaml_filter.py:92-93 | the inner loop adds exactly one file's `filename.key` entries over the table |
| MetadataFilter.BuildTranslations | metadata_yaml_filter.py:88-93 | the loop over the translation files computes `TranslationSpec`, where each file overrides the earlier ones |
| MetadataFilter.TranslationKeys | metadata_yaml_filter.py:88-93 | the table's keys are exactly the `filename.key` of every key of every file |
| MetadataFilter.TranslationLast | metadata_yaml_filter.py:88-93 | a composite key's value is the key's value in the last file of that name that has it |
| MetadataFilter.TranslateRecordValid | metadata_yaml_filter.py:97-99 | translating a record keeps its keys and their order |
| MetadataFilter.ApplySpecValid | metadata_yaml_filter.py:96-99 | translating keeps `meta`'s indicators, order, and each record's keys and order |
| MetadataFilter.TranslateNoChaining | metadata_yaml_filter.py:98-99 | an example: on a two-entry table whose first translation is itself a key of the table, that value is replaced once, not chained |
| MetadataFilter.ApplyIdempotent | metadata_yaml_filter.py:96-99 | when no translation is itself a key, applying the table twice equals applying it once |
| MetadataFilter.TranslateItems | metadata_yaml_filter.py:97-99 | the in-place loop over one record's items replaces each value that is a table key by its translation and leaves the others |
| MetadataFilter.ApplyTranslations | metadata_yaml_filter.py:96-99 | the loop over `meta` computes `ApplySpec`: every record translated, nothing else changed |
| MetadataFilter.ItemsSpec | metadata_yaml_filter.py:107 | `items()` names each key of the record exactly once, with that key's value |
| MetadataFilter.WriteBlock | metadata_yaml_filter.py:106-110 | the strings written for one indicator are `BlockOf`: its id, its field writes, then `---`, cut short by the first value that is neither null nor a string |
| MetadataFilter.FieldLinesSpec | metadata_yaml_filter.py:107-109 | the field writes fail exactly when some value is a non-string scalar; otherwise they are `key: unescape(value)` for each non-null, non-blank value, in order |
| MetadataFilter.BlockOfSpec | metadata_yaml_filter.py:106-110 | a block is complete exactly when its record holds only strings and nulls, and is then the id, the kept writes and `---` |
| MetadataFilter.ReportedIds | metadata_yaml_filter.py:104-105 | the reported ids are exactly the ids whose part before `-` is in `goals` |
| MetadataFilter.ReportedIdsCounts | metadata_yaml_filter.py:104-105 | every occurrence of a reported id is kept and no other id is |
| MetadataFilter.ReportedIdsAppend | metadata_yaml_filter.py:103-105 | the reported ids keep `meta`'s order: filtering a concatenation concatenates the filtered parts |
| MetadataFilter.WriteReport | metadata_yaml_filter.py:102-110 | the loop writing `meta.txt` produces `ReportSpec` of `meta`'s ids in insertion order |
| MetadataFilter.ReportErrStays | metadata_yaml_filter.py:102-110 | once writing has raised, later indicators add nothing |
| MetadataFilter.ReportSpecBlocks | metadata_yaml_filter.py:103-110 | the report is complete exactly when every reported record is textual, and is then the complete blocks of the reported ids in `meta` order |
| MetadataFilter.FilterMetadata | metadata_yaml_filter.py:58-110 | the whole script: an error raised before `meta.txt` is opened, or the translated `meta` written as `ReportSpec` |

## Left out

- YAML parsing, `glob` directory scans and file reading and writing: files arrive as a path and a parsed mapping, and the report is the sequence of strings passed to `f.write`, without their final newlines.
- The chart itself (figure, icons, axes, lollipop lines and circles, legend, `fig.show`/`savefig`, l.93-214): only the counts, levels, `nmax` and spans it consumes are modelled.
- The percentage summary (l.75-77) and the marker sizes `60*n**1.65`: floating-point arithmetic.
- `html.unescape`: a library call, taken as a parameter function.
- The font settings, the paths and the `outfile_csv`/`outfile_img`/`vertical` switches: the pivot is modelled whether or not it is written, and CSV formatting is not modelled.
- `score2level` on a score that is neither a number nor `target_achieved` (a `TypeError` in Python): the input type excludes it. NaN scores are not modelled either.
- A progress entry without a `progress_status` or `score` key (a `KeyError`, l.25), or whose value is null rather than a mapping (a `TypeError`, l.25): the model's entries always carry both fields, as optional values standing for YAML nulls.
- A progress file whose mapping has no entries: pandas then builds a frame without columns and `df['progress_status']` (l.29) raises `KeyError`, while the model tabulates it as an empty table (no groups, total 0, an empty pivot).
- Strings.ParseNat: models `int()` only on ASCII digit strings; surrounding whitespace, signs, underscores and other Unicode digits, which `int()` also accepts, are treated as errors. Its value is unbounded, while `astype(int)` (l.68) raises `OverflowError` on a goal beyond the 64-bit integer range.
- Lollipop.SortByGoalSorts: does not pin down the order of rows with equal integer goals (such as "2" and "02"); pandas' default sort does not promise one.
- Lollipop.MaxNumber: on an empty table pandas gives NaN and the chart code then fails; the model returns `None`.
- Strings.Basename: POSIX paths only; Windows separators are not modelled.
- YAML lists and mappings as field values, non-string YAML keys and an empty YAML file (`None` as content): values are null, a string, or another scalar, and every file's content is a string-keyed mapping.
- Repeated indicator ids: the progress file is a YAML mapping keyed by id, so the ids of `Lollipop.Entry` values are taken to be distinct and nothing models a file that repeats one.
- `meta[inid] = {}` followed by the key assignments is modelled as building the record and then storing it in one step; nothing reads `meta[inid]` in between.
- The commented-out code paths (the `all_sources` list, the `else` print, the per-goal averages) are not modelled.
