# FitnessLogger core in Dafny

A Dafny model of the logic behind the FitnessLogger workout console (`FitnessLogger.java`). It covers:

- **Entries.** The three entry kinds (strength, cardio, endurance) with `totalReps`, `formatDuration`, `toCSV`, `fromCSV` and `getDate`. The `;`-separated line format stores dates in ISO 8601 extended calendar-date form `YYYY-MM-DD`.
- **Parsers.** The duration parser `parseDuration`, and the integer branches of `parseDistance`.
- **Log store.** The in-memory `log` list and the `log.txt` file behind it: `loadLog`, `saveLog`, `clearLog`, and the append-and-save tails of the three add operations.
- **Progress.** The decision part of `showProgress`:
  - entries are grouped per kind by lower-cased name;
  - each group is sorted stably by date;
  - the oldest entry is compared with the latest;
  - only strictly positive gains are reported;
  - "No progress yet" is shown exactly when nothing was reported.

## Modules

| file | module | contents |
|---|---|---|
| `wrappers.dfy` | `Wrappers` | `Option` |
| `java_text.dfy` | `JavaText` | Java text and `int` behaviour (see below) |
| `dates.dfy` | `Dates` | calendar dates, their order, ISO `yyyy-MM-dd` text (`LocalDate.toString` / `LocalDate.parse`) |
| `durations.dfy` | `Durations` | `parseDuration` and `formatDuration` |
| `distances.dfy` | `Distances` | `parseDistance` |
| `entries.dfy` | `Entries` | the entry datatype, `toCSV`, `fromCSV`, and the per-line step of `loadLog` |
| `log_store.dfy` | `LogStore` | the `Store` class: `log` and the file's lines |
| `sorting.dfy` | `Sorting` | `List.sort` with `Comparator.comparing(LogEntry::getDate)` |
| `progress.dfy` | `Progress` | the grouping and the reports of `showProgress` |

`java_text.dfy` covers these Java behaviours:

- 32-bit `int` wrap-around (`Wrap32`);
- truncating `/` and `%`;
- `Integer.parseInt` and `Integer.toString`;
- `String.trim`, ASCII `toLowerCase`, `endsWith` and `replace`;
- `String.split`, which drops trailing empty strings.

## Modelling choices

- **Form of the model.**
  - `parseDuration`, `loadLog`, `saveLog`, the grouping loop and the `entrySet` loops of `showProgress` are methods with loops.
  - Each of those methods is proved equal to a specification function: `DurationSpec`, `ReadAll`, `Lines`, `Groups` and `Reports`.
  - Properties are proved about those functions as lemmas.
  - The static `log` list and the file form one class, `LogStore.Store`, with fields `log: seq<Entry>` and `file: seq<string>`. The file is the sequence of lines a reader of it returns; a file that does not exist reads as no lines.
- **`int` arithmetic wraps around.** This applies to:
  - the accumulation `seconds += num * 3600` in `parseDuration`;
  - `totalReps`;
  - `duration * sets`;
  - the progress differences.

  `Integer.parseInt` overflow is a rejection, as in Java.
- **An uncaught exception is a result.** A malformed line makes `loadLog` throw `NumberFormatException`, `DateTimeParseException` or `ArrayIndexOutOfBoundsException`, and only `IOException` is caught. The model returns the index of that line. The entries before it stay appended, and no later line is read.
  - `main` does not catch the exception either (FitnessLogger.java:652), so the program ends at startup. The partial `log` that `Store.Load` leaves after returning `Some(i)` is never used by the real program.
- **Inputs arrive trimmed and lower-cased.** `getInput` does this to every input, names included (FitnessLogger.java:283). The model therefore takes the entry fields as given. Grouping still lower-cases names as `showProgress` does.
- **Behaviour of the code worth knowing:**
  - `parseDistance` accepts `0` and negative numbers of metres, and deletes every `m` before parsing, not only the suffix (FitnessLogger.java:330). `"1m0m"` therefore reads as 10 metres, and `"-5m"` as −5.
  - A malformed line in the log file escapes `loadLog` uncaught (see above).
  - `getInput` lower-cases every input, names included, before it is stored (FitnessLogger.java:283).
  - A name containing `;` is written unescaped (FitnessLogger.java:54, 103, 157). The line round trip (`Entries.CsvRoundTrip`, `LogStore.LoadOfSaved`) is proved for names without `;`. With such a name the saved line splits into too many fields. `Entries.SeparatorInNameBreaksLine` shows that the line for a strength entry named `a;b` is malformed: `parseInt` reads `b` as its sets. `LogStore.SeparatorInNameStopsLoad` shows that every later `loadLog` stops at that line.
- **Stable sort.**
  - `List.sort` is modelled on values as a stable insertion sort, `SortByDate`.
  - `Sorting.StableSortUnique` proves that any sequence ordered by date which keeps each day's entries in their logged order is that sequence. So nothing depends on the sorting algorithm Java actually runs.
  - `Progress.Ends` is specified by what makes an entry the oldest or the latest, not by the sort.

## Model

| member | source | states |
|---|---|---|
| JavaText.ParseInt | FitnessLogger.java:305 | no contract of its own; specified by `ParseIntToString` and `ParseIntDigits` |
| JavaText.IntToString | FitnessLogger.java:54 | no contract of its own; specified by `ParseIntToString` and `IntToStringChars` |
| JavaText.Trim | FitnessLogger.java:183 | no contract of its own; specified by `TrimMeaning` |
| JavaText.TrimMeaning | FitnessLogger.java:183 | `trim()` keeps exactly the stretch between the leading and the trailing characters up to U+0020, and what it keeps starts and ends with a visible character |
| JavaText.LowerString | FitnessLogger.java:294 | the result has the input's length; specified by `LowerHasNoUpper` and `LowerNoUpper` |
| JavaText.LowerHasNoUpper | FitnessLogger.java:294 | `toLowerCase` leaves no ASCII upper-case letter |
| JavaText.DeleteAll | FitnessLogger.java:330 | no contract of its own; specified by `Distances.DeleteAbsent`, `Distances.DeleteLast` and `Distances.DistanceDeletesEveryM` |
| JavaText.Split | FitnessLogger.java:184 | no contract of its own; specified by `SplitJoin` |
| JavaText.ParseIntToString | FitnessLogger.java:62 | `Integer.parseInt` reads back every `int` that `Integer.toString` wrote |
| JavaText.ParseIntDigits | FitnessLogger.java:305 | on a non-empty digit string, `parseInt` gives its decimal value, or fails when that exceeds `Integer.MAX_VALUE` |
| JavaText.Wrap32 | FitnessLogger.java:38 | `int` results: unchanged in range, otherwise congruent to the true value modulo 2^32 |
| JavaText.WrapAdd | FitnessLogger.java:306-308 | wrapping after every addition equals wrapping the exact sum |
| JavaText.WrapSub | FitnessLogger.java:588 | wrapping after every subtraction equals wrapping the exact difference |
| JavaText.SplitJoin | FitnessLogger.java:184 | `split(";")` gives back the fields of a line joined with `;` when no field contains `;` and the last one is non-empty |
| Dates.FormatIso | FitnessLogger.java:54 | no contract of its own; specified by `IsoRoundTrip` and `IsoCharacters` |
| Dates.ParseIso | FitnessLogger.java:62 | no contract of its own; specified by `IsoRoundTrip` and `IsoCanonical` |
| Dates.NotAfterTotalOrder | FitnessLogger.java:586 | the date order used by the comparator is reflexive, total, antisymmetric and transitive |
| Dates.IsoRoundTrip | FitnessLogger.java:54 | `LocalDate.parse` reads back the ISO text `LocalDate.toString` writes |
| Dates.IsoCanonical | FitnessLogger.java:62 | a text that `LocalDate.parse` accepts is exactly the ISO text of the date it gives |
| Dates.IsoCharacters | FitnessLogger.java:54 | the ISO date text is ten characters, each a digit or `-`, so it never contains `;` |
| Durations.ParseDuration | FitnessLogger.java:293-319 | the character loop computes exactly `DurationSpec` |
| Durations.DurationSpec | FitnessLogger.java:315 | every accepted duration is strictly positive |
| Durations.DurationSound | FitnessLogger.java:294-315 | an accepted input is, after trimming and lower-casing, a concatenation of digits-then-unit segments, and the result is their wrapped total in seconds |
| Durations.DurationComplete | FitnessLogger.java:299-315 | every concatenation of segments, in any order and with repeats, whose total is in `1..Integer.MAX_VALUE` is accepted with that total |
| Durations.DurationShape | FitnessLogger.java:301-314 | an accepted input is non-empty, has only digits and `h`/`m`/`s`, has a digit before every unit, and ends in a unit |
| Durations.ZeroRejected | FitnessLogger.java:315 | segments totalling 0 (e.g. `0s`) are rejected |
| Durations.DurationExampleFull | FitnessLogger.java:289 | `2h30m15s` is 9015 seconds |
| Durations.DurationExampleUnordered | FitnessLogger.java:303-308 | `5s2h` is 7205 seconds: units in any order are summed |
| Durations.FormatDuration | FitnessLogger.java:87-92 | no contract of its own; specified by `PartsRebuild`, `FormatDurationParses` and the two examples |
| Durations.PartsRebuild | FitnessLogger.java:88 | for d ≥ 0, h·3600 + m·60 + s = d with 0 ≤ m < 60 and 0 ≤ s < 60 |
| Durations.FormatDurationParses | FitnessLogger.java:87-92 | every positive duration's text is read back by `parseDuration` as that duration |
| Durations.FormatDurationExamples | FitnessLogger.java:141-143 | 3605 shows as `1h0m5s`: a zero inner unit is still written |
| Durations.FormatDurationMinuteExample | FitnessLogger.java:88-90 | 60 shows as `1m0s` |
| Distances.ParseDistance | FitnessLogger.java:326-335 | no contract of its own; specified by the lemmas below |
| Distances.MetresRoundTrip | FitnessLogger.java:330 | `<n>m` reads as `n` metres for every `int` n |
| Distances.BareRoundTrip | FitnessLogger.java:331 | a bare `int` text reads as that many metres |
| Distances.IntegerBranchesIgnoreKm | FitnessLogger.java:329-331 | an input not ending in `km` never reaches the floating-point branch |
| Distances.DistanceDeletesEveryM | FitnessLogger.java:330 | `1m0m` reads as 10 metres: every `m` is deleted, not only the suffix |
| Distances.DistanceNegative | FitnessLogger.java:330 | `-5m` reads as −5 metres: a sign is accepted |
| Distances.DistanceRejectsText | FitnessLogger.java:331-333 | `abc` is rejected |
| Entries.Entry.TotalReps | FitnessLogger.java:38 | no contract of its own; specified by `TotalRepsExact` and `TotalRepsOverflow` |
| Entries.ToCsv | FitnessLogger.java:53-55 | no contract of its own; the three `toCSV` methods (also lines 102-104 and 156-158) are specified by `ToCsvJoinsFields` and `CsvRoundTrip` |
| Entries.StrengthFromCsv | FitnessLogger.java:61-63 | no contract of its own; specified by `FieldsRead` and `CsvRoundTrip` |
| Entries.CardioFromCsv | FitnessLogger.java:110-112 | no contract of its own; specified by `FieldsRead` and `CsvRoundTrip` |
| Entries.EnduranceFromCsv | FitnessLogger.java:164-166 | no contract of its own; specified by `FieldsRead` and `CsvRoundTrip` |
| Entries.ParseLine | FitnessLogger.java:183-191 | no contract of its own; specified by `ParseLineOutcomes`, `CsvRoundTrip` and `SeparatorInNameBreaksLine` |
| Entries.TotalRepsExact | FitnessLogger.java:38 | `totalReps` is sets × reps whenever the product fits in an `int` |
| Entries.TotalRepsOverflow | FitnessLogger.java:38 | 65536 × 65536 reps wrap around to 0 |
| Entries.ToCsvJoinsFields | FitnessLogger.java:53-55 | a line is tag, name, two integers and the ISO date, joined with `;` in that order |
| Entries.FieldsSeparatorFree | FitnessLogger.java:103 | with a `;`-free name, the five fields contain no `;` and the date field is non-empty |
| Entries.ParseLineOutcomes | FitnessLogger.java:183-190 | a line is skipped exactly when its trim is empty; it is dropped exactly when its first field is no tag; a read entry carries the line's tag, name and date |
| Entries.CsvSplits | FitnessLogger.java:183-184 | a written line is never blank and `split(";")` gives back its five fields |
| Entries.FieldsRead | FitnessLogger.java:61-63 | `parseInt` and `LocalDate.parse` read back the two numbers and the date that were written |
| Entries.CsvRoundTrip | FitnessLogger.java:53-166 | reading a line that `toCSV` wrote gives back the same variant, name, integers and date, for every name without `;` |
| Entries.SeparatorInNameBreaksLine | FitnessLogger.java:54 | the line written for a strength entry named `a;b` splits into six pieces, and `parseInt` throws on its third, so the line is malformed |
| LogStore.FoldFailure | FitnessLogger.java:182-192 | `loadLog` stops at a line exactly when it is the first malformed one |
| LogStore.FoldConcat | FitnessLogger.java:182-192 | without failures, reading two stretches of lines appends the entries of the first, then the second |
| LogStore.FoldFailureStable | FitnessLogger.java:182-192 | once a line has thrown, later lines change nothing |
| LogStore.FoldStopsAt | FitnessLogger.java:186-189 | at the first malformed line `loadLog` stops with the entries read before it, and later lines are never read |
| LogStore.FoldOfReads | FitnessLogger.java:187-189 | recognised lines give their entries in file order |
| LogStore.LoadOfSaved | FitnessLogger.java:177-210 | loading the file `saveLog` wrote gives back the log, with no failure, when no name contains `;` |
| LogStore.SeparatorInNameStopsLoad | FitnessLogger.java:177-192 | once an entry named `a;b` is saved, loading the file stops at its line, keeping only the entries saved before it |
| LogStore.Store.constructor | FitnessLogger.java:170 | the program starts with an empty `log` and the file as found |
| LogStore.Store.Load | FitnessLogger.java:177-196 | the file is unchanged and `log` becomes the old log followed by the entries read, with the index of the failing line if any |
| LogStore.Store.Save | FitnessLogger.java:201-210 | the log is unchanged and the file becomes one `toCSV` line per entry, in order |
| LogStore.Store.Clear | FitnessLogger.java:524-531 | `log` and the file are both empty |
| LogStore.Store.AddStrength | FitnessLogger.java:393-394 | the new entry is appended after the unchanged earlier entries and the file matches `log` |
| LogStore.Store.AddCardio | FitnessLogger.java:439-440 | the same, for a cardio entry |
| LogStore.Store.AddEndurance | FitnessLogger.java:483-484 | the same, for an endurance entry |
| Sorting.SortByDate | FitnessLogger.java:586 | the result has the input's length; specified by the lemmas below |
| Sorting.SortMultiset | FitnessLogger.java:586 | the sort is a permutation |
| Sorting.SortSorted | FitnessLogger.java:586 | the sort's result is ordered by date |
| Sorting.SortStable | FitnessLogger.java:586 | entries of the same day keep their order |
| Sorting.Oldest | FitnessLogger.java:587 | `entries.get(0)` after the sort has the earliest date, and of those it is the first logged |
| Sorting.Latest | FitnessLogger.java:587 | the last element has the latest date, and of those it is the last logged |
| Sorting.StableSortUnique | FitnessLogger.java:586 | any sequence ordered by date that keeps each day's order is the sort's result |
| Sorting.SameDaysSame | FitnessLogger.java:586 | two date-ordered sequences with the same per-day order are equal |
| Progress.GroupMembers | FitnessLogger.java:573-577 | a group holds only log entries of its kind and lower-cased name |
| Progress.GroupCounts | FitnessLogger.java:573-577 | a group holds every such entry, as many times as the log does |
| Progress.GroupConcat | FitnessLogger.java:573-577 | grouping is a filter over the log, in log order |
| Progress.EntryInItsGroup | FitnessLogger.java:574-576 | every entry's key is in its kind's map and the entry is in that group |
| Progress.GroupsNonEmpty | FitnessLogger.java:574-576 | every key of a map names a non-empty group |
| Progress.GroupsStep | FitnessLogger.java:574-576 | one more entry is one `computeIfAbsent(...).add(e)` on its kind's map |
| Progress.GroupByKind | FitnessLogger.java:569-577 | the loop builds exactly the three maps `Groups(log, kind)` |
| Progress.OldestUnique | FitnessLogger.java:587 | the oldest entry of a group is unique |
| Progress.LatestUnique | FitnessLogger.java:587 | the latest entry of a group is unique |
| Progress.Ends | FitnessLogger.java:586-587 | the first and last elements of the sorted group are its oldest and its latest entry |
| Progress.EndsUnique | FitnessLogger.java:586-587 | any oldest and latest entries are the ends of the sorted group |
| Progress.StrengthReport | FitnessLogger.java:583-596 | no contract of its own; specified by `StrengthReportMeaning` and `ShortGroupsSilent` |
| Progress.CardioReport | FitnessLogger.java:599-612 | no contract of its own; specified by `CardioReportMeaning` and `ShortGroupsSilent` |
| Progress.EnduranceReport | FitnessLogger.java:615-623 | no contract of its own; specified by `EnduranceReportMeaning` and `ShortGroupsSilent` |
| Progress.StrengthReportMeaning | FitnessLogger.java:583-596 | a strength group of two or more is reported exactly when latest minus oldest total reps is positive, naming both entries and the gain |
| Progress.CardioReportMeaning | FitnessLogger.java:599-612 | a cardio group of two or more is reported exactly when latest minus oldest duration × sets is positive |
| Progress.EnduranceReportMeaning | FitnessLogger.java:615-634 | an endurance group of two or more is reported exactly when its latest entry is faster than its oldest |
| Progress.ShortGroupsSilent | FitnessLogger.java:585 | a group of fewer than two entries is never reported |
| Progress.Minutes | FitnessLogger.java:610 | the cardio gain is shown as whole minutes, rounded down |
| Progress.LaterLoggedFirst | FitnessLogger.java:586-587 | of two entries logged later-date first, the second is the oldest |
| Progress.PushUpsExample | FitnessLogger.java:583-594 | push-ups 3×10 on 1 January and 4×10 on 8 January, logged out of order, report +10 reps |
| Progress.ReportsStep | FitnessLogger.java:583-596 | visiting one more group adds its report, if it has one |
| Progress.ReportEach | FitnessLogger.java:583-612 | in any visiting order, the loop reports exactly the groups that have a report, and its flag is set exactly when one was reported |
| Progress.ShowProgress | FitnessLogger.java:566-636 | the three report maps are those of the grouped log, and "No progress yet" is shown exactly when all three are empty |

## Left out

- Console UI: `clearScreen`, `printAsciiArt`, `centerText`, `displayWindow`, the menus, `viewLog`, `main`, `Thread.sleep` and all printing. They are presentation and interaction with no contract beyond console output.
- Display text: `formattedDate` (`dd/MM/yyyy`), `toString`, and the progress lines' layout. The reports carry the entries and the gain they print.
- Real file I/O: opening, reading and writing `log.txt`, and `IOException` handling. The file is a sequence of lines, and a missing file reads as no lines.
- Line breaks within names: `readLine`/`newLine` splitting is not modelled, because the file is given as lines, so a name containing a line break is not covered by the round trip.
- `parseDate`: it depends on `java.time`'s resolver and on the wall clock for an empty input (`LocalDate.now()`). Dates reach the add operations as values.
- The validation front halves of `addStrengthExercise`, `addCardioExercise` and `addEnduranceExercise` (prompts, re-prompts and the invalid-input returns): they are interaction. Only the shared append-and-save tails are modelled.
- Floating point: the `km` branch of `parseDistance` (`Double.parseDouble`) is the parameter `parseKm` of `Distances.ParseDistance`.
- Floating point: `formatDistance` (`distance / 1000.0`) is not modelled.
- Floating point: the endurance speeds and `%.2f` output. Whether the latest entry is faster is the parameter `faster` of `Progress.EnduranceReport` and `Progress.ShowProgress`.
- `Character.isDigit` and `toLowerCase` beyond ASCII: digits are `0`–`9` and only `A`–`Z` are lower-cased.
- Dates outside years 0 to 9999: `LocalDate.toString` writes other years with a sign or more digits, and those years are not modelled. So `Dates.ParseIso` rejects texts such as `+10000-01-01` and `-0001-01-01`, which `LocalDate.parse` accepts. `Entries.ParseLine` therefore marks a file line with such a date `Malformed` where Java reads it. A signed year can reach the log through `parseDate`, which is not part of this model.
- `HashMap` iteration order: reports are maps from the lower-cased name. `Progress.ReportEach` visits keys in an arbitrary order, and its result does not depend on it.
- The in-place sort in `showProgress`: it is modelled on values (`Sorting.SortByDate`). Sorting each group's list is unobservable once the method returns.
