# Resource profiler: a Dafny model of its offline pipeline

The profiler runs a Python program, samples its CPU, per-core, memory, swap,
energy and temperature readings into a CSV file, and lets the program print
tag lines (`<prefix><tag>: <epoch seconds>`) that mark the start and end of
its phases. Afterwards an offline pipeline correlates the tags with the
samples, rebases the clock on the process creation time, turns the raw RAPL
energy counter into cumulative joules, and computes per-phase statistics
(windows between labels, task times, means, minima and maxima, the dominant
core and its changes, a Gini load-disparity score) and cross-run ratios with
geometric-mean confidence intervals. The benchmark scripts it profiles
contain small integer kernels (bubble sort, a prime sieve, a matrix product
split into row bands, list transformations split into slices).

This project models, module by module:

| module | file | what it models |
|---|---|---|
| `Wrappers` | `wrappers.dfy` | `Option`, `Result` and the Python exceptions the code raises |
| `Text` | `text.dfy` | the string operations used (`find`, `split`, `join`, `replace`, `strip` with Python's whitespace, `basename`, ASCII `upper`/`lower`, `str(n)`, string `<`) |
| `Ordering` | `ordering.dfy` | Python's stable `sorted` with tuple keys |
| `EnergyMeter` | `energy_meter.dfy` | the RAPL energy collector: its construction and failures, the breadth-first psys-zone search, wrap-safe deltas and units |
| `CsvBuffer` | `csv_buffer.dfy` | the in-memory CSV writer class |
| `Correlator` | `correlator.dfy` | the stats-cleaner class: tag lines, labelled copies, rebasing, cumulative energy, output naming and order |
| `LabelWindow` | `label_window.dfy` | the label-bounded window and `get_times`, shared by both statistics classes |
| `FileStats` | `file_stats.dfy` | the current per-file statistics (dominant core, its change/streak state machine, disparity) |
| `LegacyFileStats` | `legacy_file_stats.dfy` | the legacy six-core statistics class |
| `RatioEngine` | `ratio_engine.dfy` | the energy-consumption result processing: CV, filename parsing, grouping by run, nogil/gil ratios, confidence intervals, aggregate rows |
| `PandasResults` | `pandas_results.dfy` | the pandas v2 result processing: stats columns, derived metrics, normalisation, file grouping |
| `ResultFiles` | `result_files.dfy` | the pandas v2 stats-file name matching and grouping |
| `AggregateAll` | `aggregate_all.dfy` | `aggregate_all.py`: flavour and scenario from file names, row collection, output guard |
| `Sampler` | `sampler.dfy` | the sample assembly of the stats collector and its per-core column splice |
| `IntSums` | `int_sums.dfy` | Python's `sum` and its independence from order |
| `Chunking` | `chunking.dfy` | `chunk_indices`, the partition of the work among threads |
| `BubbleSort` | `bubble_sort.dfy` | the bubble-sort benchmark |
| `PrimeSieve` | `prime_sieve.dfy` | the prime-sieve benchmark |
| `Matmul` | `matmul.dfy` | the matrix-product benchmark |
| `ObjectLists` | `object_lists.dfy` | the people-list benchmark |
| `StringSlices` | `string_slices.dfy` | the in-place and copying string-slice benchmarks |

Metric values are `real`; `ln`, `exp` and `sqrt` are function parameters with
the hypotheses the proofs need (exp monotone, sqrt non-negative). Every read
from psutil, sysfs or a CSV file is an input value (`Option` where the read
can fail), and so is the order in which a thread pool completes its tasks.

## Model

| member | source | states |
|---|---|---|
| EnergyMeter.Divisor | src/system_stats_collector/energy_stats_collector/main.py:120-125 | each unit's divisor from microjoules is at least 1 (J = µJ / 1e6, mJ = µJ / 1e3, µJ unchanged) |
| EnergyMeter.EnergyDelta | src/system_stats_collector/energy_stats_collector/main.py:97-125 | the result times the unit's divisor is the delta in µJ: the plain difference, or the rest of the range plus the new reading after a wrap |
| EnergyMeter.DeltaNoWrap | src/system_stats_collector/energy_stats_collector/main.py:115-116 | when the end reading is not below the start the delta is end − start, and a reading against itself gives 0 |
| EnergyMeter.DeltaWrap | src/system_stats_collector/energy_stats_collector/main.py:117-118 | when the end reading is below the start the delta is (max − start) + end |
| EnergyMeter.DeltaInRange | src/system_stats_collector/energy_stats_collector/main.py:115-125 | for readings in [0, max] the delta is between 0 and max in every unit |
| EnergyMeter.UnitConversion | src/system_stats_collector/energy_stats_collector/main.py:120-125 | the J result × 1000 is the mJ result, and the mJ result × 1000 is the µJ result |
| EnergyMeter.FilesOf | src/system_stats_collector/energy_stats_collector/main.py:63-65 | the files returned belong to the zone found |
| EnergyMeter.PopShrinks | src/system_stats_collector/energy_stats_collector/main.py:54-68 | popping the head and appending its nested zones leaves one zone fewer to visit, so the search ends |
| EnergyMeter.FirstPsys | src/system_stats_collector/energy_stats_collector/main.py:54-70 | succeeds iff some visited zone is psys, and then returns the files of the first one; otherwise the "PSys zone not found" RuntimeError |
| EnergyMeter.LocatePsysZone | src/system_stats_collector/energy_stats_collector/main.py:49-70 | the queue loop returns what the breadth-first visit order specifies: the missing-root RuntimeError, the first psys zone in breadth-first order (an unreadable name counts as ""), or the not-found RuntimeError |
| EnergyMeter.FirstPsysAfter | src/system_stats_collector/energy_stats_collector/main.py:54-68 | zones that are not psys can be skipped without changing the first psys zone found |
| EnergyMeter.BfsVisitsQueue | src/system_stats_collector/energy_stats_collector/main.py:53-55 | every zone put in the queue is visited |
| EnergyMeter.BfsVisitsChildren | src/system_stats_collector/energy_stats_collector/main.py:68 | the nested zones of every visited zone are visited too, so the whole tree is searched |
| EnergyMeter.LocateSpecOutcome | src/system_stats_collector/energy_stats_collector/main.py:62-70 | the search fails iff no zone in the visit order is psys; a psys zone at the top level is always found |
| EnergyMeter.ReadIntFile | src/system_stats_collector/energy_stats_collector/main.py:25-35 | succeeds iff the file reads and its stripped text is an integer, and then gives that integer; a missing file, a read failure and a bad literal each raise their own RuntimeError |
| EnergyMeter.ReadIntFileNamesPath | src/system_stats_collector/energy_stats_collector/main.py:32-35 | every failure message names the file |
| EnergyMeter.OpenCollector | src/system_stats_collector/energy_stats_collector/main.py:17-23 | the constructor succeeds iff a psys zone is found, its energy file opens and its wrap limit reads as an integer, and then holds that zone's files and limit; a failed search decides the error first, and every failure is a RuntimeError |
| EnergyMeter.OpenCollectorWithoutPsys | src/system_stats_collector/energy_stats_collector/main.py:49-51 | no powercap root, or no psys zone anywhere in the tree: the constructor raises the matching RuntimeError of the search |
| Correlator.SetTagLine | src/client_interface/main.py:12 | the printed tag line starts with the tag prefix |
| Correlator.Unpack | src/stats_cleaner/main.py:43-48 | two-name unpacking of `line.strip().split(": ")` succeeds iff there are exactly two pieces, and then the pieces joined by the separator give the stripped line |
| Correlator.ParseLine | src/stats_cleaner/main.py:41-50 | a line is ignored iff it starts with neither prefix; the output-name prefix is checked before the tag prefix |
| Correlator.TagLineRoundTrip | src/stats_cleaner/main.py:46-50 | a line printed by `set_tag` for a tag without ": " or the prefix reads back as the same tag and time |
| Correlator.TagLineUnpacks | src/stats_cleaner/main.py:48 | a printed tag line unpacks into the prefixed tag and the time text |
| Correlator.DropTagPrefix | src/stats_cleaner/main.py:49 | removing the prefix from the prefixed tag gives the tag back |
| Correlator.TagLineExtraSeparator | src/stats_cleaner/main.py:46-48 | a tag holding ": " makes its line fail to unpack |
| Correlator.ReadLines | src/stats_cleaner/main.py:39-50 | reading keeps the tags read before and adds at most one tag per line |
| Correlator.ReadLinesStep | src/stats_cleaner/main.py:40-50 | reading from line i on is handling line i (stop on a malformed line, skip, set the output name, or append the tag) and then the rest |
| Correlator.ReadLinesTags | src/stats_cleaner/main.py:40-50 | without a malformed line, exactly the tag lines add their tags, in line order |
| Correlator.ReadLinesHead | src/stats_cleaner/main.py:41-50 | one well-formed line appends its tag or sets the output name |
| Correlator.Uptime | src/stats_cleaner/main.py:72 | `float(row["uptime"])` succeeds iff the cell exists and is a number or parseable text, and returns the number |
| Correlator.FirstUptimeError | src/stats_cleaner/main.py:72 | there is no error iff every row's uptime parses |
| Correlator.FirstUptimeErrorWitness | src/stats_cleaner/main.py:72 | the error raised is that of the first row whose uptime does not parse |
| Correlator.FirstErrorAt | src/stats_cleaner/main.py:72 | the first failing row decides the exception |
| Correlator.Dist | src/stats_cleaner/main.py:72 | `abs(a − b)` is non-negative and is a − b or b − a |
| Correlator.ClosestIndex | src/stats_cleaner/main.py:72 | the row `min` picks is a position of the rows |
| Correlator.ClosestIndexSpec | src/stats_cleaner/main.py:72 | `min` picks a row at the least distance from the tag time, and the first such row on a tie |
| Correlator.LabelledCopy | src/stats_cleaner/main.py:73-75 | the copy's uptime is the tag time and its label is the tag |
| Correlator.Assigned | src/stats_cleaner/main.py:71-76 | handling the tags adds exactly one row per tag |
| Correlator.AssignedPrefix | src/stats_cleaner/main.py:71-76 | handling the first j tags gives the first rows + j rows of handling them all |
| Correlator.AssignedLast | src/stats_cleaner/main.py:71-76 | the last tag appends the copy of the closest row among all rows present, earlier copies included |
| Correlator.AssignedNext | src/stats_cleaner/main.py:71-76 | one more tag appends the copy for that tag to the rows so far |
| Correlator.AssignedAppends | src/stats_cleaner/main.py:71-76 | the rows read from the file stay first and unchanged, and row rows + k is the labelled copy for tag k of the closest among the rows before it |
| Correlator.AssignedKeepsRows | src/stats_cleaner/main.py:71-76 | the rows read from the file stay first and unchanged |
| Correlator.AssignedCopied | src/stats_cleaner/main.py:71-76 | row rows + k is the copy for tag k, made from the rows before it |
| Correlator.CopiedLast | src/stats_cleaner/main.py:76 | the appended copy sits right after the rows it was made from |
| Correlator.Rebased | src/stats_cleaner/main.py:88 | the rebased uptime is the old one minus the creation time, every other cell unchanged |
| Correlator.RebasedKeepsDifferences | src/stats_cleaner/main.py:87-88 | rebasing keeps every difference between two uptimes, hence their order |
| Correlator.ParseEnergyUj | src/stats_cleaner/main.py:110-120 | a missing or null value gives None; a number gives its truncation toward zero |
| Correlator.TruncToInt | src/stats_cleaner/main.py:118 | `int(x)` truncates toward zero |
| Correlator.Step | src/stats_cleaner/main.py:129-145 | a missing reading leaves the meter as it is; a present one becomes the previous reading |
| Correlator.CumulativeEnergy | src/stats_cleaner/main.py:126-145 | one joule value per row visited |
| Correlator.CumulativeAt | src/stats_cleaner/main.py:129-145 | the value at position p is what the meter after p rows stores for reading p |
| Correlator.Advance | src/stats_cleaner/main.py:130-145 | one loop pass updates `prev_energy_uj`, the running total and the stored value as the meter specifies |
| Correlator.AfterShape | src/stats_cleaner/main.py:126-145 | until the first reading the total stays 0, and for readings within the counter range it is never negative |
| Correlator.StoredIsTotal | src/stats_cleaner/main.py:132-145 | the value stored at a row is the running total after it, in joules |
| Correlator.TotalMonotone | src/stats_cleaner/main.py:140-145 | for readings within the counter range the running total never decreases |
| Correlator.CumulativeMonotone | src/stats_cleaner/main.py:124-145 | along the uptime order the cumulative energy is non-negative and non-decreasing when the readings are within the counter range |
| Correlator.AfterNoReading | src/stats_cleaner/main.py:126-133 | before any parseable reading the meter is at its start |
| Correlator.AfterSkipsMissing | src/stats_cleaner/main.py:131-133 | missing readings leave the meter unchanged |
| Correlator.CumulativeStartsAtZero | src/stats_cleaner/main.py:131-138 | the first parseable reading, and every row before it, is stored as 0.0 |
| Correlator.CumulativeCarries | src/stats_cleaner/main.py:131-133 | a missing or unparseable reading repeats the value of the row before it |
| Correlator.CumulativeAddsDelta | src/stats_cleaner/main.py:140-145 | a parseable reading stores the previous value plus the wrap-safe delta from the previous parseable reading, in joules |
| Correlator.ReadingsInOrder | src/stats_cleaner/main.py:124-130 | one reading per position of the order |
| Correlator.PermutationOfRange | src/stats_cleaner/main.py:124 | a reordering of the row positions lists each position exactly once |
| Correlator.OutputPathShape | src/stats_cleaner/main.py:174-176 | only the last '/' component changes: it gets "<name>_" in front when an output name was read |
| Correlator.OutputPathUnnamed | src/stats_cleaner/main.py:175-176 | without an output name the path is unchanged |
| Correlator.OutputPathPieces | src/stats_cleaner/main.py:174-176 | the output path joins the directory pieces and the prefixed last piece |
| Correlator.StatsCleaner.constructor | src/stats_cleaner/main.py:15-32 | all lists start empty and no output name is set |
| Correlator.StatsCleaner.ReadProgramOutputFile | src/stats_cleaner/main.py:34-50 | the labels and output name become what reading the lines specifies, or the error of the first malformed line |
| Correlator.StatsCleaner.ReadStatsFile | src/stats_cleaner/main.py:52-60 | the records become the rows; the file columns are the header plus "label", and an empty file raises IndexError |
| Correlator.StatsCleaner.AssignLabels | src/stats_cleaner/main.py:62-76 | no tags: nothing changes; tags without rows: the `min` ValueError; an unparseable uptime: its error; otherwise the rows become those specified by handling the tags in order |
| Correlator.StatsCleaner.UpdateUptime | src/stats_cleaner/main.py:78-88 | every row is rebased on the creation time (the rows become `RebasedAll` of the old rows), or the first unparseable uptime's error is raised with the rows before it rebased and the rest untouched |
| Correlator.RebasedAll | src/stats_cleaner/main.py:78-88 | each row keeps its place, with its uptime counted from the creation time |
| Correlator.StatsCleaner.NormalizeConsumedEnergy | src/stats_cleaner/main.py:90-145 | no rows: nothing changes; otherwise "energy_consumed" is added to the columns when missing, then the collector's RuntimeError (`EnergyStatsCollector()`, main.py:122) is raised when its construction failed, else the first unparseable uptime's error; without either, every row's energy becomes its cumulative value in stable uptime order, so the new rows are `Energised` of the old ones under the collector's counter maximum |
| Correlator.EnergisedSpec | src/stats_cleaner/main.py:124-145 | the row at place p of the stable uptime order gets the cumulative joules after the p-th reading in that order, and every uptime stays |
| Correlator.EnergisedIsWritten | src/stats_cleaner/main.py:124-145 | rows that hold, at every place of the uptime order, the cumulative value of that place are exactly `Energised` |
| Correlator.StatsCleaner.WriteCumulative | src/stats_cleaner/main.py:129-145 | visiting the rows in the given order stores the cumulative value of each, and changes nothing else |
| Correlator.StatsCleaner.Run | src/stats_cleaner/main.py:150-185 | on a fresh cleaner: a malformed output line, an empty stats file or the first unparseable uptime raises its own error, and once every uptime parses a failed collector construction raises its RuntimeError; these are the only failures; on success the labels and output name are those the lines give, the columns are the header, "label" and "energy_consumed", the rows are the records with their labelled copies, rebased, energy-normalised and stably sorted by uptime (`CleanedRows`), and the table written under the prefixed path is the header followed by each row's cells in column order |
| Correlator.StatsCleaner.ReadInputs | src/stats_cleaner/main.py:160-162 | the error of the first malformed output line, else the IndexError of an empty stats file; otherwise the labels, output name, rows and columns read |
| Correlator.StatsCleaner.Clean | src/stats_cleaner/main.py:164-171 | fails with the first unparseable uptime's error, else with the collector's RuntimeError when its construction failed, and in no other case; otherwise "energy_consumed" joins the columns and the rows are the labelled rows rebased and energised |
| Correlator.StatsCleaner.WriteCleaned | src/stats_cleaner/main.py:173-185 | the sorted rows are the `CleanedRows` of the records, written under the prefixed path as header plus cells in column order |
| Correlator.CleanedRowsSpec | src/stats_cleaner/main.py:161-179 | one output row per record and per tag, every uptime parses, and the rows are in ascending uptime order |
| Correlator.StatsCleaner.WriteSorted | src/stats_cleaner/main.py:179-185 | succeeds iff there are rows, their uptimes parse and there are columns; the rows end stably sorted by uptime and are written cell by cell in column order |
| Correlator.WriteRows | src/stats_cleaner/main.py:180-185 | the buffer accepts the rows iff there are rows and columns, and then writes the header followed by each row's cells |
| Correlator.CumulativeRows | src/stats_cleaner/main.py:126-145 | the loop stores at every row the cumulative value of its position in the order |
| Correlator.VisitRow | src/stats_cleaner/main.py:129-145 | one pass keeps the meter in step with the specification and stores the value at the row visited |
| Ordering.KeyLtIrreflexive | src/util/file_writer_csv.py:75 | no key tuple sorts before itself |
| Ordering.KeyLtTransitive | src/util/file_writer_csv.py:75 | tuple comparison is transitive |
| Ordering.KeyLtTrichotomy | src/util/file_writer_csv.py:75 | of two different key tuples one sorts before the other |
| Ordering.Insert | src/util/file_writer_csv.py:75 | inserting keeps every element and adds the new one |
| Ordering.SortBy | src/util/file_writer_csv.py:75 | the sort returns a permutation of its input |
| Ordering.SortByLength | src/util/file_writer_csv.py:75 | sorting keeps the length |
| Ordering.SortByIsSorted | src/util/file_writer_csv.py:75 | the result is in non-decreasing key order |
| Ordering.SortByWithKey | src/util/file_writer_csv.py:75 | for every key, the elements carrying it keep their input order |
| Ordering.SortByStable | src/util/file_writer_csv.py:75 | the sort is stable |
| Ordering.SortBySortedIdentity | src/util/file_writer_csv.py:75 | sorting a sequence already in key order leaves it unchanged |
| CsvBuffer.IndexOf | src/util/file_writer_csv.py:75 | `self._columns.index(c)` is the first position holding c |
| CsvBuffer.KeyPositions | src/util/file_writer_csv.py:75 | each key column's position holds that column name |
| CsvBuffer.MatchingPrefix | src/util/file_writer_csv.py:58-61 | the rows before it all have the column count, and the row at it does not |
| CsvBuffer.FileWriterCsv.constructor | src/util/file_writer_csv.py:10-19 | the buffer starts without columns and without rows |
| CsvBuffer.FileWriterCsv.HaveColumns | src/util/file_writer_csv.py:21-25 | true iff the column list is not empty |
| CsvBuffer.FileWriterCsv.SetColumns | src/util/file_writer_csv.py:27-36 | raises ValueError iff a row exists; otherwise the columns become the given ones, and the rows stay |
| CsvBuffer.FileWriterCsv.AppendRow | src/util/file_writer_csv.py:38-47 | raises ValueError iff there are no columns; otherwise appends the row whatever its length |
| CsvBuffer.FileWriterCsv.AppendRows | src/util/file_writer_csv.py:49-61 | without columns raises and appends nothing; otherwise appends the rows up to the first one of the wrong length, and raises iff there is one |
| CsvBuffer.FileWriterCsv.OrderByColumns | src/util/file_writer_csv.py:63-75 | raises with the rows unchanged if there are no columns or a key column is unknown, IndexError with the rows unchanged if a row is too short for a key column, and TypeError, leaving a permutation of the rows, exactly when two rows' key tuples first differ at values `<` cannot compare (None against a value, a number against a text); otherwise the rows become their stable sort by the key tuple, a sorted permutation of the old rows |
| CsvBuffer.FileWriterCsv.WriteToCsv | src/util/file_writer_csv.py:77-91 | raises ValueError iff there are no rows; otherwise emits the header followed by the rows in their current order |
| CsvBuffer.MatchingPrefixStops | src/util/file_writer_csv.py:58-60 | the first row of the wrong length is where appending stops |
| CsvBuffer.MatchingPrefixAll | src/util/file_writer_csv.py:58-61 | rows that all have the column count are appended in full |
| CsvBuffer.MatchingPrefixContinues | src/util/file_writer_csv.py:58-61 | a row of the right length after only right-length rows is appended |
| Sampler.CpuUsage | src/system_stats_collector/main.py:46-59 | None exactly when the process is gone; otherwise the share times the CPU count is the process percentage |
| Sampler.CpuUsageBounded | src/system_stats_collector/main.py:55 | a process percentage within what all CPUs can give becomes a share between 0 and 100 |
| Sampler.MemoryUsage | src/system_stats_collector/main.py:79-97 | None exactly when the process is gone; otherwise vms, rss and swap each divided by 1024^3 |
| Sampler.FirstPackageSpec | src/system_stats_collector/main.py:169-172 | None iff no entry has a non-empty label starting, lower-cased, with "package id 0"; otherwise the reading of the first such entry |
| Sampler.CpuTemperature | src/system_stats_collector/main.py:150-173 | None on a read failure or without a non-empty "coretemp" group; otherwise the first package entry's reading |
| Sampler.CollectStats | src/system_stats_collector/main.py:175-195 | a row exists iff cpu, per-core, memory and energy readings all exist (temperature is not checked), and it has N + 7 cells |
| Sampler.CollectStatsLayout | src/system_stats_collector/main.py:192 | the row reads back as timestamp, cpu, the N core values, vms, rss, swap, energy and temperature, each in its place |
| Sampler.ValuesToMeasure.constructor | src/system_stats_collector/main.py:5 | the list starts as the module constant |
| Sampler.ValuesToMeasure.GetValuesToMeasure | src/system_stats_collector/main.py:28-44 | without the keyword: the ValueError of `list.index` and nothing changes; otherwise the first keyword entry is replaced in place by core_0 … core_{N−1}, the module list itself becomes the result, and the rest keeps its order |
| Sampler.FirstIndex | src/system_stats_collector/main.py:40 | the first position holding x |
| Sampler.FindIndex | src/system_stats_collector/main.py:40 | None iff x is absent; otherwise its first position |
| Sampler.FirstIndexUnique | src/system_stats_collector/main.py:40 | a position holding x with no x before it is the first position |
| Sampler.SpliceRemovesKeyword | src/system_stats_collector/main.py:43 | after the splice a keyword that occurred once is gone, so a second call finds nothing to replace |
| Text.FindFrom | test_cases/projects/energy_consumption/process_results/aggregate_all.py:12 | from position i: a match position with no match between i and it, or None when no match follows i |
| Text.Find | test_cases/projects/energy_consumption/process_results/aggregate_all.py:12 | the first position where the pattern occurs; None exactly when it does not occur (Python's `in`) |
| Text.Split | src/stats_cleaner/main.py:43 | `str.split(sep)` always yields at least one piece |
| Text.SplitAt | src/stats_cleaner/main.py:43 | at the first separator the split is the text before it followed by the split of the rest |
| Text.JoinSplit | src/stats_cleaner/main.py:43 | joining the pieces with the separator gives back the text |
| Text.SplitPartsFree | src/stats_cleaner/main.py:43 | no piece contains the separator |
| Text.SplitTwo | src/stats_cleaner/main.py:43 | a text made of two separator-free parts around one separator splits into exactly those two parts |
| Text.SplitAtLeastThree | src/stats_cleaner/main.py:43 | two non-overlapping separators give at least three pieces, so a two-name unpacking fails |
| Text.SplitLast | src/stats_cleaner/main.py:174 | the last piece is separator-free, ends the text, and follows the joined earlier pieces and a separator |
| Text.SplitBasename | src/stats_cleaner/main.py:174 | the last piece of a '/'-split is the path's basename, after the directory part |
| Text.Basename | test_cases/projects/energy_consumption/process_results/aggregate_all.py:19 | `os.path.basename`: a '/'-free suffix that is the whole path or follows a '/' |
| Text.BasenameUnique | test_cases/projects/energy_consumption/process_results/aggregate_all.py:19 | that suffix is unique |
| Text.ReplaceAbsent | src/stats_cleaner/main.py:49 | replacing a pattern that does not occur changes nothing |
| Text.StripLine | src/stats_cleaner/main.py:43 | stripping a line whose content starts and ends with a non-blank gives that content without its newline |
| Text.NatToString | src/client_interface/process_results/file_stats.py:29 | a non-empty run of decimal digits |
| Text.NatToStringInjective | src/client_interface/process_results/file_stats.py:29 | different numbers print differently, so core column names are distinct |
| Text.StrLtIrreflexive | src/util/file_writer_csv.py:75 | string order is irreflexive |
| Text.StrLtTransitive | src/util/file_writer_csv.py:75 | string order is transitive |
| Text.StrLtTrichotomy | src/util/file_writer_csv.py:75 | any two strings are ordered or equal |
| FileStats.CoreMatch | src/client_interface/process_results/file_stats.py:43-45 | a match is always a whole `core_<digits>_usage` name |
| FileStats.CoreMatchSpec | src/client_interface/process_results/file_stats.py:43-45 | a column matches with text x exactly when it is the core name x, possibly followed by one newline (`$` before a final newline) |
| FileStats.CoreColumn | src/client_interface/process_results/file_stats.py:29 | `core_{idx}_usage` is a core name |
| FileStats.CoreColumnInjective | src/client_interface/process_results/file_stats.py:29 | different cores get different column names |
| FileStats.CoreColumnsCard | src/client_interface/process_results/file_stats.py:45-46 | n core columns are n distinct names |
| FileStats.CountCoresOfHeader | src/client_interface/process_results/file_stats.py:32-47 | a header of n core columns and other columns that do not match counts n cores |
| FileStats.HeaderNamesWithin | src/client_interface/process_results/file_stats.py:45 | such a header matches no name besides the n core columns |
| FileStats.HeaderNamesCover | src/client_interface/process_results/file_stats.py:45 | every one of the n core columns is matched |
| FileStats.Load | src/client_interface/process_results/file_stats.py:16-29 | the constructor divides by zero exactly when no column names a core; otherwise it keeps the rows, the core count and the n core column names |
| FileStats.CoreUsages | src/client_interface/process_results/file_stats.py:230 | `row[core_columns]`: KeyError for the first missing column exactly when one is missing; otherwise the usages in column order |
| FileStats.FindDominantCore | src/client_interface/process_results/file_stats.py:248-265 | the loop computes the dominant core of the row |
| FileStats.ScanSpec | src/client_interface/process_results/file_stats.py:259-264 | after k cores the scan holds -1 iff none of them dominates, else the first dominating core of greatest usage |
| FileStats.DominantCoreSpec | src/client_interface/process_results/file_stats.py:248-265 | -1 iff no core is busy and leads every other by the threshold; otherwise a dominating core no other dominating core exceeds, and the first such |
| FileStats.DominantCoreUnique | src/client_interface/process_results/file_stats.py:262 | with a positive threshold at most one core dominates, and it is the answer |
| FileStats.Disparity | src/client_interface/process_results/file_stats.py:215-246 | 0 when total usage is not positive; NaN (None) exactly for a busy single-core row, where the largest Gini value is 0 |
| FileStats.EqualLoadScoresZero | src/client_interface/process_results/file_stats.py:215-246 | equal positive load on two or more cores scores 0 |
| FileStats.OneCoreLoadScoresHundred | src/client_interface/process_results/file_stats.py:215-246 | all load on one of two or more cores scores exactly 100 |
| FileStats.GiniOfEqualShares | src/client_interface/process_results/file_stats.py:239-241 | equal shares have Gini coefficient 0 |
| FileStats.OneHotGini | src/client_interface/process_results/file_stats.py:235-241 | all load on one core gives the largest Gini value `(n - 1) / n` |
| FileStats.SortOneHot | src/client_interface/process_results/file_stats.py:236 | sorting ascending moves the single loaded core last |
| FileStats.SortedOneHot | src/client_interface/process_results/file_stats.py:236 | the only ascending permutation of a one-hot row has its one last |
| FileStats.PermutationOfConstant | src/client_interface/process_results/file_stats.py:236 | the only permutation of equal values is themselves |
| FileStats.Step | src/client_interface/process_results/file_stats.py:194-211 | one loop iteration keeps the invariant that a dominant current core has an open streak |
| FileStats.Track | src/client_interface/process_results/file_stats.py:193-211 | the tracker after any number of rows keeps that invariant |
| FileStats.TrackChanges | src/client_interface/process_results/file_stats.py:187-213 | the loop's change count and timer are those of the tracker after the whole window |
| FileStats.TrackChangesCount | src/client_interface/process_results/file_stats.py:195-199 | the change count is the number of rows with a dominant core different from the previous row's value (A, -1, A counts two) |
| FileStats.TimerWithinSpan | src/client_interface/process_results/file_stats.py:187-213 | with non-decreasing uptimes the dominant-core time is between 0 and the window's span |
| FileStats.TrackBeforeLast | src/client_interface/process_results/file_stats.py:193-211 | before the last row every streak start is an uptime already seen and the time so far fits before it |
| FileStats.ZeroStartStaysOpen | src/client_interface/process_results/file_stats.py:209 | a streak opened at uptime 0.0 is never closed: 0.0 is false to Python |
| FileStats.SwitchKeepsStart | src/client_interface/process_results/file_stats.py:196-201 | a direct switch between dominant cores keeps the streak's start and the time |
| FileStats.Positive | src/client_interface/process_results/file_stats.py:183 | only positive scores are kept |
| FileStats.DisparityAverageBounds | src/client_interface/process_results/file_stats.py:183-184 | scores within 0..100 average within 0..100 |
| FileStats.DisparityOfPositive | src/client_interface/process_results/file_stats.py:232-243 | with a positive total on two or more cores the score is the Gini value of the ascending shares over its maximum `(n - 1) / n`, times 100 |
| FileStats.SumShares | src/client_interface/process_results/file_stats.py:235 | the shares add up to the total usage over the divisor |
| FileStats.SumSortBy | src/client_interface/process_results/file_stats.py:236 | sorting the shares keeps their sum |
| FileStats.SortedShares | src/client_interface/process_results/file_stats.py:232-236 | for non-negative usage with a positive total the sorted shares are one per core, non-negative, ascending and add up to 1 |
| FileStats.WeightedSumAtMost | src/client_interface/process_results/file_stats.py:239 | for non-negative values the rank-weighted sum is at most n times the plain sum |
| FileStats.WeightedSumAtLeast | src/client_interface/process_results/file_stats.py:236-239 | for ascending values twice the rank-weighted sum is at least (n + 1) times the plain sum |
| FileStats.GiniBounds | src/client_interface/process_results/file_stats.py:239-241 | the Gini value of n ascending non-negative shares that add up to 1 lies between 0 and `(n - 1) / n` |
| FileStats.ScoreWithin | src/client_interface/process_results/file_stats.py:243 | a Gini value between 0 and `(n - 1) / n` becomes a score between 0 and 100 |
| FileStats.ShareScoreWithin | src/client_interface/process_results/file_stats.py:239-243 | the score of any such share profile lies between 0 and 100 |
| FileStats.DisparityRange | src/client_interface/process_results/file_stats.py:215-246 | for non-negative usage the score is a number on two or more cores, and whenever it is a number it lies between 0 and 100 |
| FileStats.ScanStep | src/client_interface/process_results/file_stats.py:259-264 | one iteration of the core loop keeps the scan's meaning: -1 iff no core so far dominates, else the first dominating core of greatest usage |
| FileStats.RowFactsScoresWithin | src/client_interface/process_results/file_stats.py:182 | with non-negative core usage every row score of the window that is a number lies between 0 and 100 |
| FileStats.WindowNonNegative | src/client_interface/process_results/file_stats.py:179 | the rows between the labels keep non-negative core usage |
| FileStats.TrackBetweenLabelsAverageWithin | src/client_interface/process_results/file_stats.py:179-184 | with non-negative core usage the average disparity the query reports lies between 0 and 100 |
| FileStats.RowFacts | src/client_interface/process_results/file_stats.py:180-182 | one dominant core and one score per window row |
| FileStats.RowFactsPrefixError | src/client_interface/process_results/file_stats.py:180 | the first row lacking a core column decides the error |
| FileStats.RowFactsStep | src/client_interface/process_results/file_stats.py:180-182 | one more row either fails or appends its point and score |
| FileStats.TrackBetweenLabels | src/client_interface/process_results/file_stats.py:166-213 | a missing label fails with the AttributeError of `reset_index` on None; otherwise the change count, time and average disparity of the window's rows |
| FileStats.TrackDominantCoreChanges | src/client_interface/process_results/file_stats.py:166-213 | the two loops compute exactly that query |
| LabelWindow.FirstLabelled | src/client_interface/process_results/file_stats.py:49-59 | None iff no row carries the label; otherwise a row that carries it (the first) |
| LabelWindow.SliceBetween | src/client_interface/process_results/file_stats.py:81 | from a start row through the first finish row: the slice starts with the start label, ends with the finish label and has no finish label before its end |
| LabelWindow.Window | src/client_interface/process_results/file_stats.py:61-83 | None iff a label is missing; empty iff the first finish row precedes the first start row; otherwise the rows from the first start row through the first finish row, both included |
| LabelWindow.Lookup | src/client_interface/process_results/file_stats.py:109-110 | None iff the key is absent; otherwise a value stored under it |
| LabelWindow.Put | src/client_interface/process_results/file_stats.py:110 | a dictionary assignment keeps keys distinct, makes the key map to the value and changes no other key |
| LabelWindow.LastLabelled | src/client_interface/process_results/file_stats.py:100 | None iff no row carries the label; otherwise a row that carries it (the last) |
| LabelWindow.LabelTimes | src/client_interface/process_results/file_stats.py:100 | `set_index(label).to_dict()` has distinct keys |
| LabelWindow.LabelTimesLookup | src/client_interface/process_results/file_stats.py:100 | a label maps to the uptime of the last row carrying it, and only labels that occur are keys |
| LabelWindow.TaskTimesLookup | src/client_interface/process_results/file_stats.py:102-110 | over the loop each task's entry is the span from its start key to its finish key |
| LabelWindow.GetTimesSpec | src/client_interface/process_results/file_stats.py:85-111 | a task has a duration iff both `start+T` and `finish+T` occur; the duration is the finish uptime minus the start uptime, each from the last row with that label |
| LabelWindow.Mean | src/client_interface/process_results/file_stats.py:132 | NaN (None) iff the column is empty; otherwise the sum over the count |
| LabelWindow.Min | src/client_interface/process_results/file_stats.py:157 | NaN iff empty; otherwise a column value no greater than any other |
| LabelWindow.Max | src/client_interface/process_results/file_stats.py:158 | NaN iff empty; otherwise a column value no smaller than any other |
| LabelWindow.MinMeanMax | src/client_interface/process_results/file_stats.py:132-162 | on a non-empty column the mean lies between the minimum and the maximum |
| LabelWindow.MeanWithin | src/client_interface/process_results/file_stats.py:132 | values within bounds average within the same bounds |
| LabelWindow.Column | src/client_interface/process_results/file_stats.py:132-135 | one value per window row |
| LabelWindow.AverageBetweenLabels | src/client_interface/process_results/file_stats.py:113-136 | a missing label subscripts the None window (TypeError); otherwise the four column means over the window |
| LabelWindow.MinMaxMemoryStats | src/client_interface/process_results/file_stats.py:138-164 | a missing label gives the same TypeError; otherwise the min and max of the three memory columns |
| LabelWindow.AveragesWithinMinMax | src/client_interface/process_results/file_stats.py:113-164 | over a non-empty window each memory average lies between that column's min and max |
| LegacyFileStats.FindDominantCoreLegacy | src/process_results/file_stats.py:169-187 | None iff no core dominates; otherwise the 1-based index of a dominating core (the current version's answer plus one) |
| LegacyFileStats.LegacyDominants | src/process_results/file_stats.py:158-159 | one 1-based dominant core per window row |
| LegacyFileStats.LegacyCountSnoc | src/process_results/file_stats.py:160-165 | a row adds a change iff it and the row before both have a dominant core and they differ |
| LegacyFileStats.LegacyDominantsPrefixError | src/process_results/file_stats.py:158-159 | the first row lacking a core column decides the error |
| LegacyFileStats.LegacyDominantsStep | src/process_results/file_stats.py:158-159 | one more row either fails or appends its dominant core |
| LegacyFileStats.LegacyTrackDominantCoreChanges | src/process_results/file_stats.py:141-166 | a missing label fails on `iterrows` of None; otherwise the loop returns the number of changes of dominant core over the window |
| LegacyFileStats.LegacyAdvance | src/process_results/file_stats.py:159-165 | one iteration: the tracked core becomes the row's and the count follows the change rule |
| LegacyFileStats.LegacyCountBound | src/process_results/file_stats.py:156-166 | at most one change fewer than the rows |
| LegacyFileStats.NoneRowResets | src/process_results/file_stats.py:160-165 | a row without a dominant core neither counts nor lets the next row count |
| LegacyFileStats.LegacyCountsFewer | src/process_results/file_stats.py:156-166 | on the same rows the earlier version never counts more changes than the current one |
| RatioEngine.SearchFlavor | test_cases/projects/energy_consumption/process_results/main.py:15 | a match is `gil` or `nogil` |
| RatioEngine.SearchFlavorSpec | test_cases/projects/energy_consumption/process_results/main.py:15 | the search returns the leftmost `_(nogil\|gil)_` match and nothing only where nothing matches |
| RatioEngine.ExtractFlavor | test_cases/projects/energy_consumption/process_results/main.py:47-54 | ValueError naming the path exactly when the basename holds neither `_nogil_` nor `_gil_`; otherwise `gil` or `nogil` |
| RatioEngine.FlavorOfName | test_cases/projects/energy_consumption/process_results/main.py:47-54 | a name `<stem>_<flavour>_<tail>` with an underscore-free stem yields that flavour |
| RatioEngine.FlavorAfterStem | test_cases/projects/energy_consumption/process_results/main.py:51 | in such a name the leftmost match is the one after the stem |
| RatioEngine.LeftmostFlavor | test_cases/projects/energy_consumption/process_results/main.py:51 | no match before q means the search from 0 equals the search from q |
| RatioEngine.RunIdAt | test_cases/projects/energy_consumption/process_results/main.py:16 | a capture of `_run([^_]+)_` is non-empty and underscore-free |
| RatioEngine.SearchRunId | test_cases/projects/energy_consumption/process_results/main.py:16 | the same for the search |
| RatioEngine.SearchRunIdSpec | test_cases/projects/energy_consumption/process_results/main.py:16 | the search returns the leftmost capture and nothing only where nothing matches |
| RatioEngine.ExtractRunId | test_cases/projects/energy_consumption/process_results/main.py:39-44 | the run id of the basename is non-empty and underscore-free |
| RatioEngine.RunIdOfName | test_cases/projects/energy_consumption/process_results/main.py:39-44 | a name `<stem>_run<id>_<tail>` yields id |
| RatioEngine.LeftmostRunId | test_cases/projects/energy_consumption/process_results/main.py:43 | no capture before q means the search from 0 equals the search from q |
| RatioEngine.Cv | test_cases/projects/energy_consumption/process_results/main.py:57-61 | std / mean: the result times the mean gives back the deviation, and 0 when the mean is 0 |
| RatioEngine.AddToKeys | test_cases/projects/energy_consumption/process_results/main.py:466 | `setdefault(k, []).append(x)` appends a new key at the end with x alone and keeps the key order of a known key |
| RatioEngine.AddToSpec | test_cases/projects/energy_consumption/process_results/main.py:466 | keys stay distinct and x joins exactly the group of k |
| RatioEngine.GroupFilesByRunId | test_cases/projects/energy_consumption/process_results/main.py:462-467 | the loop builds the grouped dictionary |
| RatioEngine.GroupedSpec | test_cases/projects/energy_consumption/process_results/main.py:462-467 | groups have distinct keys in order of first appearance; each holds exactly the files of its run in input order and is non-empty |
| RatioEngine.MetricColumns | test_cases/projects/energy_consumption/process_results/main.py:380 | a metric is kept iff it is one of the six ratio metrics and a column of the table |
| RatioEngine.CompareMetric | test_cases/projects/energy_consumption/process_results/main.py:394-399 | a ratio exists iff both values are numbers and the gil value is non-zero, and ratio × gil = nogil; the difference exists iff both are numbers and is |nogil − gil|; a log ratio exists iff the ratio is positive |
| RatioEngine.Distinct | test_cases/projects/energy_consumption/process_results/main.py:386 | the distinct keys, each once |
| RatioEngine.PresentKeys | test_cases/projects/energy_consumption/process_results/main.py:386 | exactly the keys of the rows |
| RatioEngine.FirstOfFlavor | test_cases/projects/energy_consumption/process_results/main.py:387-392 | None iff no row of the group has the flavour; otherwise such a row (the first) |
| RatioEngine.GroupKeysAscending | test_cases/projects/energy_consumption/process_results/main.py:386 | `groupby` yields its keys in strictly ascending order |
| RatioEngine.ComputePerRunRatios | test_cases/projects/energy_consumption/process_results/main.py:367-406 | the method computes the per-run rows |
| RatioEngine.CollectRatios | test_cases/projects/energy_consumption/process_results/main.py:386-400 | the loop adds a row for each group holding both flavours |
| RatioEngine.RatioRowsAscending | test_cases/projects/energy_consumption/process_results/main.py:406 | the rows come out in strictly ascending (run id, variant) order |
| RatioEngine.PerRunRatiosSpec | test_cases/projects/energy_consumption/process_results/main.py:367-406 | no rows for a table failing a guard; each row compares the first gil and first nogil row of its group; every group with both flavours has its row; ascending order |
| RatioEngine.Logs | test_cases/projects/energy_consumption/process_results/main.py:424 | at most one logarithm per row |
| RatioEngine.LogsOfPositiveRatios | test_cases/projects/energy_consumption/process_results/main.py:424 | only positive ratios contribute logarithms |
| RatioEngine.IntervalBrackets | test_cases/projects/energy_consumption/process_results/main.py:427-439 | with monotone exp and non-negative sqrt the geometric mean lies in its interval; a single ratio gives a degenerate interval |
| RatioEngine.SortIntervals | test_cases/projects/energy_consumption/process_results/main.py:444 | the intervals sorted by (variant, metric), a permutation |
| RatioEngine.SortedIntervals | test_cases/projects/energy_consumption/process_results/main.py:442-446 | KeyError iff there is no interval; otherwise the sorted permutation |
| RatioEngine.RatioConfidence | test_cases/projects/energy_consumption/process_results/main.py:409-446 | no intervals for no rows; otherwise a non-empty sorted list or the KeyError of the empty selection |
| RatioEngine.ConfidenceBrackets | test_cases/projects/energy_consumption/process_results/main.py:409-446 | every returned interval brackets its geometric mean |
| RatioEngine.AggColumns | test_cases/projects/energy_consumption/process_results/main.py:200 | the variant column, `flavor`, `run_id`, then the nine metric columns |
| RatioEngine.FileMetrics | test_cases/projects/energy_consumption/process_results/main.py:87-104 | nine metric cells when the body of the `try` succeeds |
| RatioEngine.TaskUptimeSpan | test_cases/projects/energy_consumption/process_results/main.py:88-89 | the uptime of a task is the span from its last start label to its last finish label |
| RatioEngine.MetricsRowSpec | test_cases/projects/energy_consumption/process_results/main.py:106-119 | uptime first, the maximum swap usage as energy, the disparity last, and every coefficient of variation scales back to its deviation |
| RatioEngine.CvScalesBack | test_cases/projects/energy_consumption/process_results/main.py:57-61 | a coefficient of variation times a non-zero mean is the deviation |
| RatioEngine.FileMetricsSpec | test_cases/projects/energy_consumption/process_results/main.py:87-104 | without the deviation method there are no metrics; otherwise the uptime is the span between the task's labels |
| RatioEngine.FileMetricsUptime | test_cases/projects/energy_consumption/process_results/main.py:88-89 | the first metric is the span between the task's last start and finish labels |
| RatioEngine.FileMetricsFirst | test_cases/projects/energy_consumption/process_results/main.py:88-89 | the first metric is the task's entry in the task times |
| RatioEngine.FileMetricsCells | test_cases/projects/energy_consumption/process_results/main.py:91-119 | the energy cell is the window's maximum swap usage and the coefficients scale back |
| RatioEngine.AggregateFileRow | test_cases/projects/energy_consumption/process_results/main.py:72-119 | a row has twelve cells |
| RatioEngine.RowOf | test_cases/projects/energy_consumption/process_results/main.py:84-119 | the same for the assembled row |
| RatioEngine.ExtractVariant | test_cases/projects/energy_consumption/process_results/main.py:31-36 | no match: None; a match whose group 1 does not exist: IndexError; an empty or missing group: None; a group `int()` rejects: ValueError; otherwise that integer |
| RatioEngine.AggregateFileRowSpec | test_cases/projects/energy_consumption/process_results/main.py:72-119 | a flavour error propagates unchanged, then a variant error (raised at main.py:85, outside the `try`) propagates unchanged; a metrics failure becomes a RuntimeError naming the file; a row is the variant, the flavour, the run id and the metrics |
| RatioEngine.RowOfSpec | test_cases/projects/energy_consumption/process_results/main.py:84-119 | the same, for any variant and metrics result; a failed variant or metrics always fails the row |
| RatioEngine.AggregateRows | test_cases/projects/energy_consumption/process_results/main.py:201-211 | one twelve-cell row per file |
| RatioEngine.AggregateRowsPrefixError | test_cases/projects/energy_consumption/process_results/main.py:201-211 | the first failing file decides the error |
| RatioEngine.CollectRows | test_cases/projects/energy_consumption/process_results/main.py:201-211 | the comprehension computes those rows or that error |
| RatioEngine.StageAggregate | test_cases/projects/energy_consumption/process_results/main.py:172-217 | the method returns the aggregate table, including its TypeError when two rows cannot be ordered |
| RatioEngine.WriteTable | test_cases/projects/energy_consumption/process_results/main.py:213-217 | the buffer writes the header and the rows stably sorted by the key columns when every two key tuples compare, and raises the sort's TypeError otherwise |
| RatioEngine.AggregateTableSpec | test_cases/projects/energy_consumption/process_results/main.py:172-217 | an empty input is refused; once every file gave its row, the table fails with TypeError exactly when two (flavour, variant, run id) keys cannot be compared, and otherwise is the header and a stable, sorted permutation of every file's row by that key |
| RatioEngine.AggregateRowsAt | test_cases/projects/energy_consumption/process_results/main.py:201-211 | the row at place i is the row of file i |
| RatioEngine.AggregateFileRowHead | test_cases/projects/energy_consumption/process_results/main.py:106-109 | a file's row exists only when its variant was extracted, and begins with that variant (None when the name has none), its flavour and the run id |
| RatioEngine.AggKeyOfRow | test_cases/projects/energy_consumption/process_results/main.py:216 | the sort key of a row is its (flavour, variant, run id) cells |
| RatioEngine.MixedKeysIncomparable | test_cases/projects/energy_consumption/process_results/main.py:216 | rows of one flavour, one with no variant and one with a number, have key tuples Python cannot compare |
| RatioEngine.MixedVariantsRefused | test_cases/projects/energy_consumption/process_results/main.py:216 | two files of one flavour, one whose name yields no variant (`_extract_variant`, main.py:31-36, giving None) and one that yields a number, make the sort `stage_aggregate` reaches through `order_by_columns` (src/util/file_writer_csv.py:75) raise TypeError |
| PandasResults.StatsTimesIdAt | test_cases/projects/pandas/v2/process_results/const.py:17-20 | the placeholder `time_tags` is the third of nineteen stats columns and the only one of that name |
| PandasResults.GetStatsColumns | test_cases/projects/pandas/v2/process_results/main.py:29-40 | the columns before the placeholder, then `time_<tag>` for each tag in order, then the columns after it |
| PandasResults.StatsColumnsRestore | test_cases/projects/pandas/v2/process_results/main.py:36-39 | putting the placeholder back in place of the task columns gives the stats columns again |
| PandasResults.StatsColumnsAt | test_cases/projects/pandas/v2/process_results/main.py:29-40 | for n tasks: name columns first, `time_<tag>` at 2 + i, then avg_cpu_usage, the change columns, the dominant-time columns and energy_consumption at their offsets |
| PandasResults.Derived | test_cases/projects/pandas/v2/process_results/main.py:152-161 | six derived cells |
| PandasResults.StatsRow | test_cases/projects/pandas/v2/process_results/main.py:159-161 | a row of 18 + n cells for n tasks |
| PandasResults.ProcessFile | test_cases/projects/pandas/v2/process_results/main.py:137-166 | the row and the columns have the same length, 18 + the number of tasks |
| PandasResults.ProcessFileValue | test_cases/projects/pandas/v2/process_results/main.py:148-166 | a successful file has a non-zero processing time, a window and tracked statistics, and returns the row built from them with the columns of its tasks |
| PandasResults.StatsRowSpec | test_cases/projects/pandas/v2/process_results/main.py:153-161 | changes-by-time × processing time = changes; time with + time without a dominant core = processing time; energy = average cpu × processing time |
| PandasResults.StatsRowUnderColumns | test_cases/projects/pandas/v2/process_results/main.py:159-165 | every cell sits under the column that names it |
| PandasResults.ProcessFileSpec | test_cases/projects/pandas/v2/process_results/main.py:137-166 | the processing time is the span between the last processing start and finish labels, and the row lines up with its columns |
| PandasResults.GroupMinSpec | test_cases/projects/pandas/v2/process_results/main.py:127 | the group minimum exists iff the record-count group is non-empty, is attained in it and bounds it from below |
| PandasResults.GroupMinOfMember | test_cases/projects/pandas/v2/process_results/main.py:127 | a measure's own group has a minimum |
| PandasResults.NormalizeColumnSpec | test_cases/projects/pandas/v2/process_results/main.py:125-129 | each measure once with its own normalised value, ordered by record count then normalised value |
| PandasResults.NormalizedAtLeastOne | test_cases/projects/pandas/v2/process_results/main.py:127 | with a positive group minimum every normalised value is at least 1, and the minimum itself normalises to 1 |
| PandasResults.GroupMinMapped | test_cases/projects/pandas/v2/process_results/main.py:127 | an order-preserving map of the values maps the group minimum |
| PandasResults.NormalizeScaleInvariant | test_cases/projects/pandas/v2/process_results/main.py:127 | normalisation does not depend on the unit: scaling a column by a positive factor leaves the normalised values unchanged |
| PandasResults.StatisticTables | test_cases/projects/pandas/v2/process_results/main.py:120-123 | no table is made for `test_name` or `num_records`, and there are at most as many tables as columns |
| PandasResults.NormalizeResults | test_cases/projects/pandas/v2/process_results/main.py:120-135 | no table is made for `test_name` or `num_records`, and there are at most as many tables as columns |
| PandasResults.StatisticTablesLength | test_cases/projects/pandas/v2/process_results/main.py:120-135 | one table per statistic column and no more |
| PandasResults.StatisticTablesAt | test_cases/projects/pandas/v2/process_results/main.py:120-135 | the statistic at column i is normalised at the position counting the statistics before it |
| PandasResults.NormalizeResultsSpec | test_cases/projects/pandas/v2/process_results/main.py:120-135 | the tables are exactly one per statistic column, in column order: the statistic at column i is the `NormalizeColumn` of its measures, at the position counting the statistics before it |
| ResultFiles.DigitRunEnd | test_cases/projects/pandas/v2/process_results/main.py:47 | the end of the run of digits from i |
| ResultFiles.WordRunEnd | test_cases/projects/pandas/v2/process_results/main.py:47 | the end of the run of word characters from i |
| ResultFiles.LastTail | test_cases/projects/pandas/v2/process_results/main.py:47 | the greedy `(\w+)` backtracks to the last position where the rest of the pattern matches |
| ResultFiles.LastTailFinds | test_cases/projects/pandas/v2/process_results/main.py:47 | the backtracking finds any such position in its range |
| ResultFiles.TailUnique | test_cases/projects/pandas/v2/process_results/main.py:47 | inside one word run at most one position starts the rest of the pattern |
| ResultFiles.MatchSound | test_cases/projects/pandas/v2/process_results/main.py:47 | every match is a name `<digits>_<word>_<digits>_<8 digits>_<6 digits>_stats.csv` with the matched groups |
| ResultFiles.MatchComplete | test_cases/projects/pandas/v2/process_results/main.py:47 | every such name matches, with exactly its own groups |
| ResultFiles.NameRoundTrip | test_cases/projects/pandas/v2/process_results/main.py:47-57 | a name built from the parts gives them back, whatever follows `.csv` (`match` anchors only the start) |
| ResultFiles.DecimalValueOfText | test_cases/projects/pandas/v2/process_results/main.py:57 | `int` of a count's decimal text is the count |
| ResultFiles.JoinPath | test_cases/projects/pandas/v2/process_results/main.py:51 | `os.path.join` ends with the name |
| ResultFiles.EntryFile | test_cases/projects/pandas/v2/process_results/main.py:51-57 | an entry yields a file iff it is a regular file whose name matches |
| ResultFiles.Yields | test_cases/projects/pandas/v2/process_results/main.py:50-60 | one yield per listing entry |
| ResultFiles.GroupSound | test_cases/projects/pandas/v2/process_results/main.py:58-60 | every file of a group comes from an entry yielding it under that id |
| ResultFiles.GroupComplete | test_cases/projects/pandas/v2/process_results/main.py:58-60 | every entry yielding a file under an id puts it into that id's group |
| ResultFiles.MembersSpec | test_cases/projects/pandas/v2/process_results/main.py:50-60 | a file is among a scenario's files iff some entry yields it under that id |
| ResultFiles.AddEntry | test_cases/projects/pandas/v2/process_results/main.py:58-60 | one entry appends its file to its scenario's list, creating the list when new, and keeps the key order duplicate-free |
| ResultFiles.GroupEntries | test_cases/projects/pandas/v2/process_results/main.py:48-60 | the dictionary maps exactly the ids with files to their files in listing order |
| ResultFiles.SortedIds | test_cases/projects/pandas/v2/process_results/main.py:62 | `sorted` keeps the same ids in strictly ascending order |
| ResultFiles.SortedIdsAscending | test_cases/projects/pandas/v2/process_results/main.py:62 | sorted and duplicate-free means strictly ascending |
| ResultFiles.CollectFileNames | test_cases/projects/pandas/v2/process_results/main.py:42-64 | the groups come in strictly ascending id order; each holds exactly its scenario's files in listing order and is non-empty; exactly the ids with files appear |
| AggregateAll.DetectFlavor | test_cases/projects/energy_consumption/process_results/aggregate_all.py:10-12 | `nogil` exactly when the name contains it, otherwise `gil` |
| AggregateAll.FirstPieceSpec | test_cases/projects/energy_consumption/process_results/aggregate_all.py:20-21 | the first piece of a split on `_summary_` is a marker-free prefix, followed by the marker when there is one and the whole text otherwise |
| AggregateAll.ScenarioFromFilenameSpec | test_cases/projects/energy_consumption/process_results/aggregate_all.py:15-21 | the scenario is the part of the `.csv`-free basename before its first `_summary_`, or all of it |
| AggregateAll.DropCsvExtension | test_cases/projects/energy_consumption/process_results/aggregate_all.py:20 | removing `.csv` from a dot-free name plus `.csv` gives the name |
| AggregateAll.FirstMarker | test_cases/projects/energy_consumption/process_results/aggregate_all.py:20 | in `a_summary_b` with no marker in a the first marker follows a |
| AggregateAll.ScenarioRoundTrip | test_cases/projects/energy_consumption/process_results/aggregate_all.py:15-21 | `<dir>/<scenario>_summary_<flavor>.csv` gives back the scenario |
| AggregateAll.LastIndex | test_cases/projects/energy_consumption/process_results/aggregate_all.py:41 | the last header field with the key: a DictReader keeps the last duplicate |
| AggregateAll.GetSpec | test_cases/projects/energy_consumption/process_results/aggregate_all.py:41-47 | `row.get(key, "")`: the text of the last field named key, or "" when the header lacks it |
| AggregateAll.RecordRowsNext | test_cases/projects/energy_consumption/process_results/aggregate_all.py:34-49 | one more record adds its row unless it is blank |
| AggregateAll.RowsOfNext | test_cases/projects/energy_consumption/process_results/aggregate_all.py:26-53 | one more file appends its rows |
| AggregateAll.AppendRecordRows | test_cases/projects/energy_consumption/process_results/aggregate_all.py:34-49 | the inner loop appends the rows of the file's records |
| AggregateAll.CollectRows | test_cases/projects/energy_consumption/process_results/aggregate_all.py:24-53 | the rows of every file in glob order |
| AggregateAll.RecordRowsFrom | test_cases/projects/energy_consumption/process_results/aggregate_all.py:33-48 | a row of a kept file carries its scenario, its flavour and its first header field |
| AggregateAll.CollectedRowsFrom | test_cases/projects/energy_consumption/process_results/aggregate_all.py:24-53 | every collected row comes from a file that is neither `_cv.csv` nor headerless, and carries that file's scenario, flavour and variant type |
| AggregateAll.CollectedRowsComplete | test_cases/projects/energy_consumption/process_results/aggregate_all.py:24-53 | every non-blank record of a kept file yields its row among the collected rows |
| AggregateAll.RecordRowsComplete | test_cases/projects/energy_consumption/process_results/aggregate_all.py:34-49 | every non-blank record yields its row |
| AggregateAll.InRowsOf | test_cases/projects/energy_consumption/process_results/aggregate_all.py:26-53 | a file's rows are among all rows |
| AggregateAll.RowOfRecord | test_cases/projects/energy_consumption/process_results/aggregate_all.py:76-89 | a record read back as a row has the ten output columns |
| AggregateAll.RecordRoundTrip | test_cases/projects/energy_consumption/process_results/aggregate_all.py:76-89 | a written record reads back as the row it was made from |
| AggregateAll.Records | test_cases/projects/energy_consumption/process_results/aggregate_all.py:75-89 | one record per row |
| AggregateAll.WriteOutput | test_cases/projects/energy_consumption/process_results/aggregate_all.py:56-91 | nothing is written without rows; otherwise the header and one record per row in collection order, each reading back as its row |
| IntSums.SumByAppend | test_cases/projects/energy_consumption/scenarios/threads_objects/2/object_lists.py:87-89 | the sum over a concatenation is the sum of the sums |
| IntSums.SumByRemove | test_cases/projects/energy_consumption/scenarios/threads_numerical/1/matmul.py:71-72 | taking one term out of the middle |
| IntSums.SumByPermutation | test_cases/projects/energy_consumption/scenarios/threads_numerical/1/matmul.py:71-72 | the same terms in any order have the same total, so `as_completed` order does not matter |
| IntSums.SumAppend | test_cases/projects/energy_consumption/scenarios/sequential/1/bubble_sort.py:33-35 | `sum` over a concatenation |
| IntSums.SumPermutation | test_cases/projects/energy_consumption/scenarios/sequential/1/bubble_sort.py:33-35 | `sum` is invariant under permutation, so sorting keeps the checksum |
| Chunking.Chunks | test_cases/projects/energy_consumption/scenarios/threads_numerical/1/matmul.py:43-51 | ZeroDivisionError exactly for zero workers; no ranges for negative workers |
| Chunking.ChunkIndices | test_cases/projects/energy_consumption/scenarios/threads_numerical/1/matmul.py:43-51 | the loop with its early `break` yields exactly those ranges |
| Chunking.ChunksFromTile | test_cases/projects/energy_consumption/scenarios/threads_numerical/1/matmul.py:46-51 | from a start, enough remaining workers cut the rest into ordered, contiguous, non-empty ranges of at most the chunk size, one per worker at most |
| Chunking.CeilDivCovers | test_cases/projects/energy_consumption/scenarios/threads_numerical/1/matmul.py:45 | workers × ceil(total / workers) reaches total |
| Chunking.ChunksPartition | test_cases/projects/energy_consumption/scenarios/threads_numerical/1/matmul.py:43-51 | for at least one worker the ranges tile `[0, total)` exactly, there are at most `workers` of them, each at most ceil(total / workers) long |
| Chunking.TilesOrdered | test_cases/projects/energy_consumption/scenarios/threads_numerical/1/matmul.py:47-51 | each range lies inside the tiled interval, and later ranges start after earlier ones end |
| Chunking.TilesCoverOnce | test_cases/projects/energy_consumption/scenarios/threads_numerical/1/matmul.py:43-51 | every index falls in exactly one range |
| Chunking.PiecesConcat | test_cases/projects/energy_consumption/scenarios/threads_numerical/1/matmul.py:43-51 | gluing the selected slices back together gives the tiled slice |
| Chunking.CompletionOrderBounds | test_cases/projects/energy_consumption/scenarios/threads_numerical/1/matmul.py:43-51 | whatever order the workers finish in, every range they were handed is a non-empty band inside `[0, total)` |
| BubbleSort.BuildNumbers | test_cases/projects/energy_consumption/scenarios/sequential/1/bubble_sort.py:15-17 | the input list has `max(count, 0)` entries and entry `i` is `count - i` |
| BubbleSort.BuildNumbersDescending | test_cases/projects/energy_consumption/scenarios/sequential/1/bubble_sort.py:15-17 | the input list is strictly descending, so every pair starts out of order |
| BubbleSort.BuildNumbersChecksum | test_cases/projects/energy_consumption/scenarios/sequential/1/bubble_sort.py:33-35 | the checksum of the unsorted input is the triangular number `count * (count + 1) / 2` |
| BubbleSort.AdjacentSorted | test_cases/projects/energy_consumption/scenarios/sequential/1/bubble_sort.py:25-27 | a list whose adjacent pairs are in order is sorted |
| BubbleSort.SortedJoin | test_cases/projects/energy_consumption/scenarios/sequential/1/bubble_sort.py:23-30 | a sorted front, a sorted tail and every front value at most every tail value make a sorted list |
| BubbleSort.SwapStep | test_cases/projects/energy_consumption/scenarios/sequential/1/bubble_sort.py:26-27 | swapping an out-of-order adjacent pair keeps the values of the pass window, leaves the tail alone and carries the running maximum one step right |
| BubbleSort.PassSwapStep | test_cases/projects/energy_consumption/scenarios/sequential/1/bubble_sort.py:25-28 | a swap keeps the inner-loop invariant and records that something moved |
| BubbleSort.PassKeepStep | test_cases/projects/energy_consumption/scenarios/sequential/1/bubble_sort.py:25-26 | skipping an in-order pair keeps the inner-loop invariant |
| BubbleSort.PassSettles | test_cases/projects/energy_consumption/scenarios/sequential/1/bubble_sort.py:23-27 | after a pass over `[0, m)` the largest value sits at `m - 1` and is at most every value after it |
| BubbleSort.PassExtendsTail | test_cases/projects/energy_consumption/scenarios/sequential/1/bubble_sort.py:23-27 | a pass extends the sorted tail by one position |
| BubbleSort.BubblePass | test_cases/projects/energy_consumption/scenarios/sequential/1/bubble_sort.py:24-28 | one inner loop over `[0, m)`: the window is permuted, the rest unchanged, its largest value ends at `m - 1`; no swap means the window was already sorted and nothing changed, and an already-sorted window reports no swap |
| BubbleSort.SortStep | test_cases/projects/energy_consumption/scenarios/sequential/1/bubble_sort.py:23-28 | a pass that swapped something grows the sorted, settled tail by one and keeps the values |
| BubbleSort.SortDone | test_cases/projects/energy_consumption/scenarios/sequential/1/bubble_sort.py:28-30 | a pass that swapped nothing leaves the whole list sorted, with the same values; on sorted input this happens on the first pass with nothing moved |
| BubbleSort.SortFinish | test_cases/projects/energy_consumption/scenarios/sequential/1/bubble_sort.py:23 | after `len(values)` passes the list is sorted and holds the same values |
| BubbleSort.OuterPass | test_cases/projects/energy_consumption/scenarios/sequential/1/bubble_sort.py:23-30 | one outer iteration either extends the sorted tail or ends the sort with the list sorted |
| BubbleSort.Sort | test_cases/projects/energy_consumption/scenarios/sequential/1/bubble_sort.py:20-30 | the list ends sorted and a permutation of its input; at most `len(values)` passes run, and a sorted input is left untouched after a single pass (none when empty) |
| PrimeSieve.SurvivesNext | test_cases/projects/energy_consumption/scenarios/sequential/2/prime_sieve.py:23-24 | crossing off the multiples of `f` from `f * f` turns survivors of the factors below `f` into survivors of the factors up to `f` |
| PrimeSieve.CompositeSkip | test_cases/projects/energy_consumption/scenarios/sequential/2/prime_sieve.py:22 | skipping a factor already crossed off loses nothing: its multiples were crossed off by a smaller divisor |
| PrimeSieve.SmallDivisor | test_cases/projects/energy_consumption/scenarios/sequential/2/prime_sieve.py:21 | a composite number has a divisor of at least 2 whose square does not exceed it |
| PrimeSieve.SurvivesIsPrime | test_cases/projects/energy_consumption/scenarios/sequential/2/prime_sieve.py:21 | once `f * f` exceeds `k`, surviving every factor below `f` is exactly being prime |
| PrimeSieve.TrueIndices | test_cases/projects/energy_consumption/scenarios/sequential/2/prime_sieve.py:26 | the comprehension yields exactly the indices whose flag is set, in ascending order |
| PrimeSieve.CrossStart | test_cases/projects/energy_consumption/scenarios/sequential/2/prime_sieve.py:23 | before the inner loop nothing has been crossed off for `f` |
| PrimeSieve.CrossStep | test_cases/projects/energy_consumption/scenarios/sequential/2/prime_sieve.py:23-24 | clearing one multiple keeps the crossing-off invariant and moves to the next multiple |
| PrimeSieve.CrossDone | test_cases/projects/energy_consumption/scenarios/sequential/2/prime_sieve.py:23-24 | when the range is exhausted every flag agrees with survival of the factors up to `f` |
| PrimeSieve.SkipComposite | test_cases/projects/energy_consumption/scenarios/sequential/2/prime_sieve.py:22 | a factor whose flag is already cleared leaves the flags sieved for the next factor |
| PrimeSieve.SievedPrimes | test_cases/projects/energy_consumption/scenarios/sequential/2/prime_sieve.py:21 | when `factor * factor > limit` every flag is exactly primality |
| PrimeSieve.CrossOff | test_cases/projects/energy_consumption/scenarios/sequential/2/prime_sieve.py:23-24 | the inner loop takes flags sieved below `factor` to flags sieved up to `factor` |
| PrimeSieve.Sieve | test_cases/projects/energy_consumption/scenarios/sequential/2/prime_sieve.py:14-26 | a limit below 2 gives no primes; otherwise `p` is returned iff `2 <= p <= limit` and `p` is prime, and the list is strictly ascending |
| Matmul.BuildMatrix | test_cases/projects/energy_consumption/scenarios/threads_numerical/1/matmul.py:13-15 | a `max(size, 0)`-square matrix whose entries lie in `[0, 100)` |
| Matmul.TransposeInvolution | test_cases/projects/energy_consumption/scenarios/threads_numerical/1/matmul.py:18-21 | transposing a square matrix twice gives it back |
| Matmul.BuildMatrixSymmetric | test_cases/projects/energy_consumption/scenarios/threads_numerical/1/matmul.py:13-21 | the benchmark's matrix is its own transpose |
| Matmul.SliceChecksumSplit | test_cases/projects/energy_consumption/scenarios/threads_numerical/1/matmul.py:24-40 | the checksums of two adjacent bands of rows add up to the checksum of their union |
| Matmul.ComputeChecksumForRowSlice | test_cases/projects/energy_consumption/scenarios/threads_numerical/1/matmul.py:24-40 | the nested loops return the sum, over rows `[start, end)` and every column, of the dot product of the row with the column |
| Matmul.TilesChecksum | test_cases/projects/energy_consumption/scenarios/threads_numerical/1/matmul.py:43-73 | the checksums of ranges that tile `[lo, hi)` add up to the checksum of `[lo, hi)` |
| Matmul.MatmulTotal | test_cases/projects/energy_consumption/scenarios/threads_numerical/1/matmul.py:59-73 | with at least one worker, the workers' results added in any order give the checksum of the whole product |
| Matmul.ChunkChecksumsSumBy | test_cases/projects/energy_consumption/scenarios/threads_numerical/1/matmul.py:71-72 | the total of the workers' results is the sum of each range's checksum |
| Matmul.RunMatmulBenchmark | test_cases/projects/energy_consumption/scenarios/threads_numerical/1/matmul.py:54-73 | whatever order the workers finish in, with at least one worker the total is the checksum of the whole product of the benchmark's matrix with itself |
| ObjectLists.BuildPeople | test_cases/projects/energy_consumption/scenarios/threads_objects/2/object_lists.py:39-48 | the loop yields `max(n, 0)` people, person `i` built from index `i` as the source prescribes |
| ObjectLists.PeopleFacts | test_cases/projects/energy_consumption/scenarios/threads_objects/2/object_lists.py:42-47 | person `i` has id `i`, an age between 18 and 97, and is active iff `i` is even |
| ObjectLists.AlternatingActiveCount | test_cases/projects/energy_consumption/scenarios/threads_objects/2/object_lists.py:46 | when people are active exactly at even positions, half of them rounded up are active |
| ObjectLists.PeopleActiveCount | test_cases/projects/energy_consumption/scenarios/threads_objects/2/object_lists.py:39-48 | `(n + 1) // 2` of the benchmark's `n` people are active |
| ObjectLists.PySlice | test_cases/projects/energy_consumption/scenarios/threads_objects/2/object_lists.py:59 | with bounds inside the list, `people[start:end]` is exactly that sub-list |
| ObjectLists.ExpandAppend | test_cases/projects/energy_consumption/scenarios/threads_objects/2/object_lists.py:58-69 | building `processed` distributes over concatenation of the input |
| ObjectLists.ExpandCount | test_cases/projects/energy_consumption/scenarios/threads_objects/2/object_lists.py:58-73 | `processed` holds every person of the slice plus one copy per active person |
| ObjectLists.ExpandChecksum | test_cases/projects/energy_consumption/scenarios/threads_objects/2/object_lists.py:71-72 | the checksum of `processed` is the slice's weights plus, per active person, its weight plus one (the older copy) |
| ObjectLists.ProcessPeopleSlice | test_cases/projects/energy_consumption/scenarios/threads_objects/2/object_lists.py:51-73 | the loop builds `processed` (each person, followed by an older copy when active) and returns its length and its name-length-plus-age checksum |
| ObjectLists.SliceResultOf | test_cases/projects/energy_consumption/scenarios/threads_objects/2/object_lists.py:51-73 | for a range inside the list, a worker's result is the count and checksum of the expanded sub-list |
| ObjectLists.ExpandLengthAppend | test_cases/projects/energy_consumption/scenarios/threads_objects/2/object_lists.py:58-69 | the length of `processed` is additive over concatenation |
| ObjectLists.ResultsStep | test_cases/projects/energy_consumption/scenarios/threads_objects/2/object_lists.py:87-88 | a sum over the workers' results splits off the first result |
| ObjectLists.PiecesStep | test_cases/projects/energy_consumption/scenarios/threads_objects/2/object_lists.py:59 | gluing the selected slices peels off the first slice |
| ObjectLists.CountsOfPieces | test_cases/projects/energy_consumption/scenarios/threads_objects/2/object_lists.py:87 | the workers' counts add up to the count of processing their glued slices |
| ObjectLists.ChecksumsOfPieces | test_cases/projects/energy_consumption/scenarios/threads_objects/2/object_lists.py:88 | the workers' checksums add up to the checksum of processing their glued slices |
| ObjectLists.PeopleTotal | test_cases/projects/energy_consumption/scenarios/threads_objects/2/object_lists.py:76-89 | with at least one worker, in any order of completion, the result is the list length plus its active count plus the whole list's checksum with copies, i.e. what one worker processing everything would return |
| StringSlices.UpperAppend | test_cases/projects/energy_consumption/scenarios/threads_objects/1/object_lists_nocopy.py:47 | `str.upper` distributes over concatenation |
| StringSlices.UpperDigits | test_cases/projects/energy_consumption/scenarios/threads_objects/1/object_lists_nocopy.py:47 | upper-casing leaves the decimal digits of a record number alone |
| StringSlices.UpperRecord | test_cases/projects/energy_consumption/scenarios/threads_objects/1/object_lists_nocopy.py:30-36 | an upper-cased record reads `NAME<i> MIDDLENAME<i> SURNAME<i>` |
| StringSlices.UpperIdempotent | test_cases/projects/energy_consumption/scenarios/threads_objects/1/object_lists_nocopy.py:47 | upper-casing twice is upper-casing once, so a record handled twice ends the same |
| StringSlices.ProcessSliceInPlace | test_cases/projects/energy_consumption/scenarios/threads_objects/1/object_lists_nocopy.py:39-49 | the positions `[start, end)` of the shared list are upper-cased and every other position is unchanged |
| StringSlices.CoveredSnoc | test_cases/projects/energy_consumption/scenarios/threads_objects/1/object_lists_nocopy.py:54-60 | a position is covered by the handled ranges plus one more iff it was covered or lies in the new one |
| StringSlices.OrderCovers | test_cases/projects/energy_consumption/scenarios/threads_objects/1/object_lists_nocopy.py:52-60 | any completion order of the ranges handed out covers every position of the list, and each range lies inside it |
| StringSlices.UpperWhereStep | test_cases/projects/energy_consumption/scenarios/threads_objects/1/object_lists_nocopy.py:54-60 | one more finished worker upper-cases exactly the positions of its range |
| StringSlices.RunInPlace | test_cases/projects/energy_consumption/scenarios/threads_objects/1/object_lists_nocopy.py:52-62 | whatever order the workers finish in, with at least one worker every record of the shared list ends upper-cased |
| StringSlices.ProcessSliceCopy | test_cases/projects/energy_consumption/scenarios/threads_objects/2/object_lists_copy.py:39-50 | the worker returns its start index and a fresh list whose entry `i` is record `start + i` upper-cased; the shared list is untouched |
| StringSlices.FilledStep | test_cases/projects/energy_consumption/scenarios/threads_objects/2/object_lists_copy.py:63-65 | stitching one worker's copy into its range fills exactly that range of the output |
| StringSlices.RunSliceCopy | test_cases/projects/energy_consumption/scenarios/threads_objects/2/object_lists_copy.py:53-67 | whatever order the workers finish in, with at least one worker the output has no `None` left and entry `i` is record `i` upper-cased |

## Left out

- Process launching, the polling loop and output capture (`src/main.py`, the process handler, the resources measurer): the samples and the tag lines they produce are inputs here.
- psutil calls and sysfs reads (cpu, per-core usage, memory, temperature sensors, the RAPL `energy_uj` and `max_energy_range_uj` files): their results are `Option` inputs. The energy collector's construction is modelled on the outcomes of its reads: the sysfs zone tree (`None` when the powercap root is missing), the failure message of opening the energy file, and the outcome of reading `max_energy_range_uj`; Python's `int()` on text is the function parameter `intOf`. Seeking and re-reading the open energy file handle is left out with them.
- File and CSV I/O: opening and reading the stats and program-output files, `pd.read_csv`, the body of `write_to_csv`, `src/util/file_writer.py`, globbing, `os.makedirs` and the `abspath`-based path helpers. The model starts from the rows, lines and file names they would yield, in the order given.
- Floating point: every metric is a `real`, so rounding and NaN propagation are not modelled; `math.log`, `math.exp` and `sqrt` are function parameters, with `exp` monotone and `sqrt` non-negative as the only hypotheses.
- Thread pools: `ThreadPoolExecutor` and `as_completed` are not modelled. The order in which workers finish is an input, any permutation of the ranges `chunk_indices` hands out. The runners require at least one worker because the executor rejects other counts before `chunk_indices` runs.
- Matmul.Transpose: requires every row to be at least `len(m)` long. The source raises IndexError on shorter rows, and that error path is not modelled.
- StringSlices.ProcessSliceInPlace: requires non-negative bounds inside the list. Python's negative and out-of-range slice indices are not modelled, since `chunk_indices` never produces them.
- StringSlices.ProcessSliceCopy: same restriction to non-negative bounds inside the list.
- StringSlices.UpperRecord: states the upper-cased shape of one record. That distinct indices give distinct records is not proved.
- Text.Upper and Text.Lower: ASCII letters only; Unicode case mapping is not modelled.
- ResultFiles.DigitRunEnd: accepts the ASCII digits only, whereas Python 3's `\d` also matches the other Unicode decimal digits.
- ResultFiles.WordRunEnd: accepts ASCII letters, digits and `_` only, whereas Python 3's `\w` also matches the other Unicode word characters.
- FileStats.CoreMatch: its `\d+` accepts ASCII digits only, for the same reason.
- FileStats.DisparityAverage: takes 0 when no row has a positive disparity. For that empty selection pandas hands back the `np.nan` object itself, so under NumPy 1.x the source's `is np.NaN` test holds and 0 is the value as written; NumPy 2 no longer defines `np.NaN`, and the model does not follow that version.
- FileStats.ZeroStartStaysOpen records the source's treatment of a streak starting at uptime 0.0 (false to Python, so it is never closed) as the code behaves; no corrected rule is modelled.
- `get_std_between_labels`, called by `_aggregate_file_row`, is defined in neither `FileStats` version. Its three deviations are an optional input. When they are absent, the AttributeError is raised inside the `try`, so the row fails with `RuntimeError("Failed to process stats from <path>")`.
- The stats cleaner calls `energy_delta_uj` and `close()` on the energy collector, which the collector does not define. The model uses `energy_delta` in microjoules and leaves `close()` out.
- `test_cases/util/file_writer_csv.py` is the writer the energy and pandas v2 results scripts import. It defines no `order_by_columns` and no `df_data`, so as written `stage_aggregate` raises AttributeError at test_cases/projects/energy_consumption/process_results/main.py:216, and the pandas v2 driver raises it at its main.py:86. The model gives both scripts the writer of `src/util/file_writer_csv.py` instead, whose `order_by_columns` they evidently expect.
- CsvBuffer.FileWriterCsv.OrderByColumns: on the TypeError the contract promises only that the rows are a permutation of the old ones; CPython's in-place sort leaves them partly merged, in an order that depends on where its merge met the incomparable pair, and the model does not say which order that is.
- CsvBuffer.FileWriterCsv.OrderByColumns: the TypeError's message does not name the two types, because which incomparable pair Python's sort meets first depends on its merge order. RatioEngine.WriteTable, RatioEngine.StageAggregate and RatioEngine.AggregateTableSpec carry the same message.
- PandasResults.NormalizeColumnSpec: a group whose minimum is 0 gets no number (`Null`) for every value. pandas gives infinity for a positive value and NaN for 0, and `sort_values` puts infinity before NaN; the model keeps those rows in their input order instead.
- The plotting scripts, `_write_normalized`, `_write_flavor_deltas` and the `__main__` drivers: plotting and pandas plumbing around the modelled logic.
- `FilesStats.process_files` of the pandas v2 results: the per-scenario driver, whose DataFrame `groupby(...).mean()` over the rows of one test and record count is not modelled. Its parts (`_collect_file_names`, `_process_file`, `_normalize_results`) are.
- `set_output_filename` is not defined in `src/client_interface/main.py` and is not part of this model. The constants `VALUES_TO_MEASURE`, `KEYWORD_CPU_USAGE_PER_CORE` and the `CSV_STATS_COL_NAME_*` column names come from files that are not part of this model and are parameters.
- The output-file-name prefix: src/stats_cleaner/main.py:5 imports `PREFIX_MEASURE_TAG_FILE_NAME` from src/const.py, which defines only `PREFIX_MEASURE_TAG` (src/const.py:12), so as written that import raises ImportError and the stats cleaner never runs. The model does not reproduce the ImportError; it takes the prefix as the parameter `fileNamePrefix` of `Correlator.ParseLine` and of the functions and the cleaner that read output lines through it.
- The float, foreign-library and network workloads (mandelbrot, nbody, numpy, json, sha256, tokenising, the data downloader) and the sleep-based scripts are not part of this model.
