# basicbiofunctions in Dafny

A verified model of the nucleotide-analysis helpers in `functions.py` of
basicbiofunctions:

- `gc_content` gives the GC percentage and length of a fragment.
- `sequence_reader` pulls the accession and the sequence of one gene out of
  a coding-sequence FASTA file.
- `gc_list_generator` gives GC percentages over 70-base windows of a
  sequence and of a shuffle of it.
- `df_creator` reads several files and builds the sequence, GC and
  window-profile tables, the minimum length, and the exploded
  one-row-per-window table.

Modules, one per concern:

| file | module | models |
|---|---|---|
| `wrappers.dfy` | `Wrappers` | `Option`, `Result` and the two Python exceptions the core can raise (`ZeroDivisionError`, `ValueError`) |
| `pystr.dfy` | `PyStr` | the `str` operations used: `rstrip("\n")`, `strip()`, `upper()`, `count`, `startswith`, `in` |
| `gc_stats.dfy` | `GcStats` | `gc_content` |
| `extractor.dfy` | `Extractor` | the regular expression `\|(.+?)\_` under `re.search`, and `sequence_reader` |
| `profiler.dfy` | `Profiler` | `gc_list_generator` |
| `aggregator.dfy` | `Aggregator` | `df_creator` up to the explode step |

Python exceptions become `Err` values: `gc_content` divides by zero on an
empty fragment, and `min` raises a ValueError on an empty column. A file is
given as the list of its lines, each with its line terminator, as iterating
a text file yields them.

Each loop of the source is a method proved equal to a recursive
specification function:

- `SequenceReader` equals `Read`.
- `GcListGenerator` equals `Profiled`.
- `DfCreator` equals `Tabulate` over `Records`.

Lemmas then state what those functions mean:

- The include flag is on exactly when the latest header is selected.
- The profile fails exactly when some window fails. Otherwise row `k` is
  window `k`'s start `70 * k`, both GC percentages and the accession.
- The windows concatenate back to the sequence. The shuffle keeps the
  total G/C count.
- On files made of proper lines, `df_creator` never divides by zero. Up to
  the explode step, its only failure is `min` on an empty table.

`Profiled`, `Collect` and `Tabulate` take the per-window statistic as a
parameter. The methods and the `gc_content`-specific lemmas instantiate it
with `GcContent`.

`sequence_reader` concatenates the stripped body of EVERY block whose
header mentions the gene, and never resets the sequence. One might expect
only the last matching block, but the code keeps every selected block, and
so does the model (`ReadBlock`, `BothRecordsSelected`).

## Model

| member | source | states |
|---|---|---|
| PyStr.SpaceIsNotPrintable | functions.py:47-48 | the whitespace `strip()` removes is never a printable ASCII character, so no base letter is removed |
| PyStr.Contains | functions.py:40 | `gene_name in line` holds exactly when the gene occurs in the line at some index |
| PyStr.CountChar | functions.py:13-14 | `s.count(c)` is at most the length of `s` |
| PyStr.CountCharIsMultiplicity | functions.py:13-14 | `s.count(c)` is the number of occurrences of `c` in `s`, its multiplicity in the multiset of characters |
| PyStr.RStripNewlines | functions.py:11 | `rstrip("\n")` keeps a prefix that does not end in a line feed, and removes only line feeds |
| PyStr.Strip | functions.py:47-48 | `strip()` leaves a string no longer than its input that neither starts nor ends in whitespace |
| PyStr.StripIsSlice | functions.py:47-48 | what `strip()` keeps is one contiguous slice of the line |
| PyStr.StripKeepsCharacters | functions.py:47-48 | character `i` of the stripped line is character `StripOffset + i` of the line |
| PyStr.StripRemovesOnlySpace | functions.py:47-48 | every character `strip()` removes, at either end, is whitespace |
| PyStr.StripRemovesTerminator | functions.py:47-48 | stripping a line whose only line feed is its terminator leaves no line feed |
| PyStr.Upper | functions.py:12 | `upper()` keeps the length and leaves no lower-case ASCII letter |
| PyStr.Lower | functions.py:12 | `lower()`, the counterpart used to compare cases, keeps the length and leaves no upper-case ASCII letter |
| PyStr.LowerRStripNewlines | functions.py:11-12 | lower-casing commutes with removing trailing line feeds |
| PyStr.UpperRStripNewlines | functions.py:11-12 | upper-casing commutes with removing trailing line feeds |
| GcStats.GcBases | functions.py:13-15 | the G/C count of a fragment is at most its length |
| GcStats.GcContent | functions.py:6-18 | ZeroDivisionError exactly when nothing is left after removing trailing line feeds; otherwise the length of what is left and 100 × its G/C share, within [0, 100] |
| GcStats.UpperCountIsGcBases | functions.py:12-15 | counting "G" and "C" after `upper()` counts G/g/C/c bases |
| GcStats.PercentBounds | functions.py:16-17 | a share of at most the whole gives a percentage within [0, 100] |
| GcStats.LowerKeepsGcBases | functions.py:12-15 | lower-casing does not change the G/C count |
| GcStats.UpperKeepsGcBases | functions.py:12-15 | upper-casing does not change the G/C count |
| GcStats.GcContentIgnoresCase | functions.py:11-18 | `gc_content` gives the same result for the lower-cased and the upper-cased fragment |
| GcStats.GcBasesConcat | functions.py:13-15 | the G/C count of a concatenation is the sum of the counts |
| GcStats.GcBasesOfMultiset | functions.py:13-15 | the G/C count depends only on the multiset of characters |
| GcStats.PermutationKeepsGcBases | functions.py:67-69 | a shuffle of a fragment has the same G/C count |
| GcStats.NoTrailingNewlineIsDefined | functions.py:11-16 | a non-empty fragment not ending in a line feed never divides by zero, and its whole length is reported |
| Extractor.LazyGroup | functions.py:43 | lazy `(.+?)`: the shortest group of at least one non-line-feed character followed by '_', or none |
| Extractor.SearchFrom | functions.py:43 | `re.search` tries start positions left to right and reports the leftmost match with the shortest group |
| Extractor.Accession | functions.py:43-45 | None exactly when the pattern matches nowhere; otherwise group 1 of the leftmost, shortest match, non-empty and free of line feeds |
| Extractor.Step | functions.py:36-48 | one line never shortens the sequence; a header leaves the sequence alone; the name changes only to the accession of a selected header |
| Extractor.Read | functions.py:36-48 | after any lines, a set name is non-empty and holds no line feed |
| Extractor.NameFromSelectedHeader | functions.py:38-45 | a returned name is the accession of one of the headers that mention the gene |
| Extractor.SequenceReader | functions.py:24-54 | the name and sequence the loop returns are those of the line-by-line reader specification `Read` |
| Extractor.FlagIsLatestHeader | functions.py:35-46 | the include flag is on exactly when the most recent header exists and is selected |
| Extractor.PreambleIgnored | functions.py:35-46 | lines before the first header leave the reader in its initial state |
| Extractor.ReadBlock | functions.py:38-48 | a header and its body extend the sequence by the stripped body when selected, never reset it, and change the name only for a selected header with an accession |
| Extractor.NoSelectedHeader | functions.py:30-54 | with no selected header the reader returns no name and an empty sequence |
| Extractor.SecondRecordOnly | functions.py:38-48 | with only the second of two records selected, the result is that record's accession and body |
| Extractor.BothRecordsSelected | functions.py:38-48 | with both records selected and the second header lacking an accession, the sequence is both bodies and the name stays the first |
| Extractor.ReadResultShape | functions.py:30-54 | the sequence never ends in whitespace, has no line feed for well-formed lines, and a set name is non-empty |
| Profiler.WindowCount | functions.py:71 | `range(0, len, 70)` has enough starts to cover the sequence, and its last start is before the end |
| Profiler.Window | functions.py:73-74 | each slice `[x:x + 70]` has 1 to 70 characters, and exactly 70 unless it is the last |
| Profiler.Windows | functions.py:71-74 | the slices, one per start: each has 1 to 70 characters, and all but the last have 70 |
| Profiler.ProfileOf | functions.py:71-86 | the profile table has one entry per window in each list, and the positions are 0, 70, 140, … up to a start before the end |
| Profiler.Profiled | functions.py:71-84 | after `m` windows without error, each of the four lists has `m` entries |
| Profiler.GcListGenerator | functions.py:56-86 | the shuffle has the sequence's length, and the loop's four lists (or error) are those of the window-by-window specification `Profiled` |
| Profiler.ErrorPersists | functions.py:71-84 | once a window raises, later windows do not change the outcome |
| Profiler.ProfiledError | functions.py:71-84 | an error of the run is one the statistic raised on some window of the sequence or of the shuffle |
| Profiler.ProfiledSucceeds | functions.py:71-84 | the run succeeds exactly when the statistic succeeds on every window of both strings |
| Profiler.ProfiledRows | functions.py:71-86 | on success the four lists have one entry per window: start `70 * k`, both percentages of window `k`, the accession |
| Profiler.GcListsMeaning | functions.py:71-86 | the profile fails exactly when some window fails, and otherwise equals the table `ProfileOf` |
| Profiler.GcListsError | functions.py:77-78 | with `gc_content` the only possible error is ZeroDivisionError |
| Profiler.EmptySequenceProfile | functions.py:71-86 | an empty sequence gives four empty lists |
| Profiler.JoinFirstWindows | functions.py:71-74 | the first `m` windows concatenate to the prefix they cover |
| Profiler.WindowsCoverSequence | functions.py:71-74 | the windows concatenate back to the whole sequence |
| Profiler.SumGcIsJoinGc | functions.py:73-78 | the G/C count summed over fragments is the count of their concatenation |
| Profiler.RandomGcConserved | functions.py:67-78 | the shuffle's windows hold as many G/C bases in total as the sequence's windows, which is the sequence's count |
| Profiler.NoNewlineWindowsDefined | functions.py:73-78 | without line feeds, no window of the sequence or of its shuffle divides by zero |
| Aggregator.Records | functions.py:120-122 | at most one record per file |
| Aggregator.RecordsAppend | functions.py:120-122 | the records of two file lists read in turn are the records of their concatenation |
| Aggregator.RecordOfFile | functions.py:121-122 | a file contributes its record exactly when both its name and its sequence are truthy |
| Aggregator.RecordsShape | functions.py:121-122 | every kept record has a non-empty accession and a non-empty sequence not ending in whitespace, with no line feed for well-formed files |
| Aggregator.RecordProfile | functions.py:124 | a record's profile, when it exists, has four equal-length lists, one entry per window |
| Aggregator.Collect | functions.py:120-141 | after a clean loop each table has one row per kept record, and every list row has four lists of equal length, as `explode` requires |
| Aggregator.PermutesLength | functions.py:67-69 | a shuffle has the sequence's length |
| Aggregator.MinLength | functions.py:144 | `min` raises ValueError exactly on an empty column; otherwise its value is at most every length and equal to one of them |
| Aggregator.ExplodeRow | functions.py:148 | one list row explodes into one row per window |
| Aggregator.Explode | functions.py:148 | the exploded table has as many rows as there are windows in all list rows |
| Aggregator.ExplodeAt | functions.py:148 | the exploded table has one row per window, and window `k` of list row `i` is row `Offset(i) + k`, with that window's code, percentages and position |
| Aggregator.OffsetPrefix | functions.py:148 | the rows before list row `i` depend only on the list rows before it |
| Aggregator.OffsetSame | functions.py:148 | tables agreeing on their first `i` rows have the same offset at `i` |
| Aggregator.ExplodeAppend | functions.py:148 | exploding two tables one after the other is exploding their concatenation |
| Aggregator.Tabulate | functions.py:120-148 | on success at least one record was kept, each table has one row per record, `length` is at most every row's length, and the exploded table has one row per window |
| Aggregator.CollectErrorPersists | functions.py:120-141 | once a record raises, later files do not change the outcome |
| Aggregator.DfCreator | functions.py:88-148 | the loop's tables, minimum length and exploded table (or error) are those of the specification `Tabulate` over the kept records |
| Aggregator.CollectSucceeds | functions.py:120-141 | the loop gets through exactly when every kept record's statistic and profile succeed |
| Aggregator.CollectRows | functions.py:120-141 | on success row `k` of each table is record `k`'s accession with its sequence, length, percentage and profile |
| Aggregator.CollectError | functions.py:123-124 | an error of the loop is one some record's statistic or profile raised |
| Aggregator.TabulateMeaning | functions.py:120-148 | the loop's error is passed on; after a clean loop the only error is `min`'s ValueError, raised exactly when no record was kept; the result's `length` is at most every row's length and equal to one |
| Aggregator.RecordDefined | functions.py:122-124 | a non-empty sequence without line feeds passes both `gc_content` and `gc_list_generator`, with its full length |
| Aggregator.WellFormedRecords | functions.py:120-144 | for such records the only failure is the ValueError of an empty table, and each row's length is its sequence's length |
| Aggregator.WellFormedFiles | functions.py:120-144 | for files of proper lines `df_creator` fails exactly when no file passes the filter, and then with ValueError |

Proof steps that carry the loops' inductions, with no meaning of their own
beyond the rows they serve: `Extractor.ReadSnoc`, `Profiler.NextWindow`,
`Profiler.WindowAt`, `Profiler.ProfiledNext`, `Profiler.GcStep`,
`Profiler.GcStepFails` and `Aggregator.CollectStep`.

## Left out

- File access is not modelled: opening the file, `FileNotFoundError` and the `print` in `sequence_reader`. A file is its list of lines. A missing file is the same as an empty one, since the source then returns `(None, '')`.
- `random.shuffle` is a parameter. `GcListGenerator` takes the shuffled string, and `DfCreator` takes a function giving the `k`-th kept record's shuffle. Both are required only to be permutations of the sequence. Which permutation is drawn is not modelled.
- GcStats.GcContent: does not model `round(…, 2)` or the conversion to `float`, because the percentage is an exact real before rounding.
- GcStats.GcContentIgnoresCase: holds for the model's `upper()` and `lower()`, which change ASCII letters only and keep the length. Python's also change other letters, and some change the length: 'ß'.upper() is "SS" and 'İ'.lower() has two characters. On such input Python's results can differ, for example `gc_content("Gİ")` is 50.0 but that of its lower-cased form is 33.33. No other character upper-cases to "G" or "C", so only the divisor is affected.
- Aggregator.DfCreator: does not model the pandas steps after `explode`. These are `to_numeric`, `qcut` into quartiles, `pivot_table` for the heat map, and the columns they add. Its result stops at the exploded rows.
- Aggregator.DfCreator: does not model the ValueError that `pd.qcut(q=4)` (functions.py:159, 161) raises when a record's percentages do not give four distinct quartile edges. A single kept record of at most 70 bases, with one window, already raises it. The model's success therefore means success up to the explode step.
- Aggregator.Explode: does not model pandas' row of missing values for an empty list. A kept record always has at least one window, so this case cannot arise.
- Aggregator.DfCreator: does not model pandas frames and column dtypes. The tables are sequences of rows with the same columns, and `concat` with an empty frame (or `None`) is appending a row.
- `database_sample` (functions.py:174-216) is not part of this model. It is local file I/O: it reads a multi-record file line by line and writes each record it finds to its own `output_N.txt` file.
- `setup.py` is not part of this model. It is packaging code.
