# climate: parsing and folding NOAA tab-delimited climate records

`climate.c` reads one or more tab-delimited (TDV) files of NOAA climate
observations, one record per line. Each record has nine fields: a two-letter
state code, a millisecond timestamp, a geohash, humidity, a snow flag, cloud
cover, a lightning flag, pressure and surface temperature in Kelvin. The
program keeps a table of at most 50 per-state summaries. These hold the record
count, the humidity, cloud-cover and temperature sums with their running
averages, the snow and lightning counters and the pressure sum. They also hold
the maximum and minimum temperature, each with the time it was observed. The
program then prints the table.

This project models the part of the program that goes from lines of text to
the filled table, and proves properties of it:

- `Numeric` (numeric.dfy): the C-library pieces the parser relies on.
  - `atoi` and `atof` on decimal notation.
  - C's division, which truncates toward zero.
  - C's conversion of a floating value to an `int`, which also truncates.
- `Tokenizer` (tokenizer.dfy): `strtok(line, "\t")`, as the fields of a
  line, and the loop of `state_tokens` that keeps the first nine.
- `Observations` (observations.dfy): `create_state`, which turns nine fields
  into an observation. It also gives a rendering of readings as lines, which
  the parser inverts.
- `Aggregate` (aggregate.dfy): the 50-slot table, `add_state`,
  `add_stateinfo`, the slot search of `analyze_file`, the per-file loop and
  the loop of `main` over files.
- `Reference` (reference.dfy): an independent description of the final
  table, written without the table. It takes the regions in order of first
  appearance and computes, for each one, its count, its sums, its averages
  and the first hottest and first coldest of its readings. The main theorem
  says that the fold yields exactly this table.
- `Scenarios` (scenarios.dfy): concrete runs. They use the two first sample
  records of the format's description, a tie between equal temperatures, a
  line that is too short and a record cut after eight fields with a tab
  before its newline.
- `AsWritten` (aswritten.dfy): the code as written, at the two places listed
  under Findings.

Arithmetic is exact: `real` stands for `long double`, and `int` for C's
integers. The only exception is the 32-bit narrowing in `AsWritten`. Each
file is a sequence of lines as `fgets` stores them: a line keeps the newline
that ends it, and the last line of a file may have none. `strtok` splits on
tabs only, so the newline stays at the end of the last field, or forms a
field of its own after a final tab. `atoi` and `atof` skip it as trailing
text. Opening and reading files, and printing, are outside the model.

Where the format's description and the code disagree, the model follows the
code:

- A numeric field that is not a number is read by `atof`/`atoi` as 0 (or as
  its numeric prefix). The record is still counted; it is not rejected as
  malformed.
- The model skips a record with fewer than nine fields. Here it departs
  from the code, which has undefined behaviour on such a line:
  `state_tokens` never returns NULL, so the `state == NULL` test in
  `analyze_file` never fires, and `create_state` reads entries of
  `tokens[]` that were never set (climate.c:174, 183). See
  Observations.CreateState under Left out.
- A line of eight fields that ends in a tab is not short. The newline after
  the tab is a ninth field, so the record is counted, with a temperature
  read from no digits: 0 K, which is -459.67 F.
- Runs of tabs count as one separator, because `strtok` never yields empty
  fields. So an empty field is dropped, the fields after it shift left, and
  they are read as the wrong measurements. With an empty geohash the line
  has eight fields and is skipped; if it has a tenth field as well, the
  snow field is read as the humidity, the cloud cover as the snow flag and
  so on, and the temperature comes from that tenth field
  (Tokenizer.FieldsOfLayout with a gap of two tabs).
- When the table holds 50 regions, a record of a 51st region is dropped
  silently: the slot search runs off the end.

## Model

| member | source | states |
|---|---|---|
| Numeric.SkipSpace | climate.c:158-164 | the white space `atoi`/`atof` skip: what is dropped is all space, and what is left starts with a non-space character |
| Numeric.LeadingDigits | climate.c:158-164 | the digit run that `atoi`/`atof` read stops at the first non-digit |
| Numeric.ShowNat | climate.c:158 | not code at that line: the model's decimal rendering of the millisecond count, whose digits read back to the same value; it is the rendering AtoiShowInt inverts |
| Numeric.Atoi | climate.c:158 | `atoi` gives a result with the sign that was written, and its magnitude is below 10^k when it read k digits, so text with no digits reads as 0; AtoiShowInt pins down its value on rendered integers |
| Numeric.Atof | climate.c:159-164 | `atof` gives a result with the sign that was written, and its magnitude is below 10^k when it read k digits before any point, and text with no digits before or after a point reads as 0; AtofShowDecimal pins down its value on rendered decimals |
| Numeric.DigitsBound | climate.c:158-164 | a run of k digits denotes less than 10^k |
| Numeric.AtoiNewline | climate.c:158 | a newline after the text, as `fgets` leaves it, never changes what `atoi` reads |
| Numeric.AtofNewline | climate.c:159-164 | a newline after the text never changes what `atof` reads |
| Numeric.AtofNewlineAlone | climate.c:164 | a field that is only the newline reads as 0 |
| Numeric.AtoiShowInt | climate.c:158 | `atoi` reads back any rendered integer, whatever non-digit text follows it |
| Numeric.AtofShowDecimal | climate.c:159-164 | `atof` reads back the exact value of any rendered decimal, with sign, whole part and fraction |
| Numeric.LeadingDigitsOfDigits | climate.c:158-164 | the digit scan stops exactly at the end of a digit run |
| Numeric.TruncDiv | climate.c:158 | C's integer division: the remainder is smaller than the divisor and has the sign of the dividend |
| Numeric.TruncToInt | climate.c:160-162 | the conversion of `atof`'s result to an `int` field truncates toward zero |
| Tokenizer.Strtok | climate.c:173-180 | one `strtok` step yields a non-empty, tab-free token, followed by the rest of the line, which is empty or starts at the tab that ended the token |
| Tokenizer.StrtokSplits | climate.c:173-180 | `strtok` yields nothing exactly when only tabs remain; otherwise the text is the tabs it skipped, then the token, then the rest |
| Tokenizer.FieldsStep | climate.c:178-181 | one pass of the loop moves the next token from the fields still to be read to the kept ones, and the unread text gets shorter |
| Tokenizer.LoopExit | climate.c:178-183 | when the loop stops, because no field is left or nine are kept, the kept tokens are the first nine fields of the line, or all of them |
| Tokenizer.Fields | climate.c:173-180 | every token `strtok` yields is non-empty and tab-free |
| Tokenizer.StateTokens | climate.c:171-185 | the tokenizing loop keeps at most nine tokens, which are the first nine fields of the line in order |
| Tokenizer.FieldsNewline | climate.c:173-180 | the newline `fgets` keeps is a field of its own after a final tab run (or on a line of tabs), and otherwise ends the last field |
| Tokenizer.FieldsNewlinePrefix | climate.c:173-180 | the fields before the one the newline touches are unchanged, and none is lost |
| Tokenizer.LayoutEnd | climate.c:173-180 | a line ends inside a field exactly when it has fields and no tabs after the last one |
| Tokenizer.FieldsOfLayout | climate.c:173-180 | fields joined with one or more tabs between them, and any number at either end, tokenize back to the same fields |
| Tokenizer.LayoutOfFields | climate.c:173-180 | every line is its fields joined by its own tab runs, so tokenizing loses nothing but tabs |
| Tokenizer.StrtokOfLayout | climate.c:173-180 | `strtok` on leading tabs, a field and a rest starting at a tab returns that field and that rest |
| Observations.RegionCode | climate.c:157 | `strncpy(code, field, 2)`: at most two characters, a prefix of the field, and shorter only when the field is |
| Observations.KelvinToFahrenheit | climate.c:164 | the Kelvin value can be recovered exactly from the Fahrenheit one |
| Observations.ConversionPreservesOrder | climate.c:164 | the conversion is strictly monotone and injective, and maps 273.15 K to 32 F and 373.15 K to 212 F |
| Observations.Timestamp | climate.c:158 | the time in whole seconds brackets the millisecond count, truncated toward zero |
| Observations.TimestampOfMillis | climate.c:158 | the time of a rendered millisecond count is that count divided by 1000, so 1428300000000 ms gives 1428300000 s |
| Observations.Flag | climate.c:160-162 | an `int` flag field holds the whole part of what `atof` reads: at most that value and within one of it, with its sign |
| Observations.CreateState | climate.c:153-168 | an observation exists exactly when there are nine fields. Its code is a prefix of field 0, and its temperature converts back to field 8 read as Kelvin |
| Observations.ParseLine | climate.c:171-185 | a line gives an observation exactly when it has at least nine fields, and that observation is built from its first nine |
| Observations.ParseRendered | climate.c:153-185 | a reading rendered as nine fields, with any extra fields after them and any tab runs between them, parses back to the observation it stands for |
| Observations.CreateStateOfRender | climate.c:153-168 | `create_state` on a record's nine rendered fields recovers all its values: the code, the time in seconds, the readings, the truncated flags and the temperature in Fahrenheit |
| Observations.ParseNewline | climate.c:171-185 | keeping the newline changes nothing for a line of any number of fields but eight; eight fields give a record exactly when a tab run follows them, and then its temperature is -459.67 F |
| Observations.NewlineIsNinth | climate.c:171-185 | after eight fields and a tab run the newline is the ninth field: the record is counted, with the code of field 0 and a temperature of -459.67 F |
| Observations.NewlineEndsNinth | climate.c:164 | a newline ending the ninth field leaves the record as it was |
| Observations.RenderedFieldsAreFields | climate.c:173-180 | every rendered field is non-empty and tab-free |
| Aggregate.EmptyTable | climate.c:120 | the table starts with 50 empty slots and is well formed |
| Aggregate.FirstTouch | climate.c:189-198 | a new entry counts one record, its averages equal the record's values, and its maximum and minimum are the record's temperature at the record's time |
| Aggregate.Update | climate.c:201-247 | one more record: the count goes up by one and every sum and counter takes the record in. The maximum never decreases, is at least the new temperature, and moves with its time only to the new record. The same holds for the minimum. Consistency is kept |
| Aggregate.FindSlotFrom | climate.c:265-280 | the scan from slot i stops at the first empty slot or at the first slot with the same code, and finds nothing when neither exists |
| Aggregate.Ingest | climate.c:263-280 | a record changes at most one slot and never empties an occupied one, and a full table with no matching entry is unchanged |
| Aggregate.IngestPresent | climate.c:271-275 | a record of a region already in slot k updates slot k alone |
| Aggregate.IngestNew | climate.c:267-269 | a record of a region that is absent goes, as a fresh entry, into the first empty slot |
| Aggregate.IngestFull | climate.c:265-280 | a record of a 51st region leaves a full table unchanged |
| Aggregate.IngestPreservesWf | climate.c:263-280 | the table stays well formed: 50 slots, occupied ones first, distinct codes, consistent entries |
| Aggregate.IngestAll | climate.c:256-282 | a run over observations keeps the 50 slots; IngestAllPreservesWf and Reference.FoldIsExpected state what it computes |
| Aggregate.IngestAllKeepsSlots | climate.c:256-282 | along any run an occupied slot keeps its region |
| Aggregate.IngestAllPreservesWf | climate.c:256-282 | along any run the table stays well formed |
| Aggregate.IngestLine | climate.c:256-261 | a line that does not parse leaves the table unchanged |
| Aggregate.IngestLines | climate.c:256-282 | a run over lines keeps the 50 slots; IngestLinesIsIngestAll and IngestLinesAppend state what it computes |
| Aggregate.IngestLinesIsIngestAll | climate.c:256-282 | folding lines is folding the observations of the lines that parse |
| Aggregate.IngestLinesAppend | climate.c:125-143 | analysing one batch of lines after another is analysing their concatenation |
| Aggregate.IngestLinesSnoc | climate.c:256-282 | the fold takes lines in order, the last line last |
| Aggregate.AnalyzeFile | climate.c:250-284 | the loop over one file's lines yields the in-order fold of those lines into the given table |
| Aggregate.AnalyzeFiles | climate.c:120-143 | the loop over files yields the fold of all their lines, in order, from the empty table, and the result is well formed |
| Aggregate.DistinctRegions | climate.c:265-280 | up to 50 records of pairwise distinct regions fill slots 0, 1, … in input order, each as a fresh entry |
| Reference.Select | climate.c:271-275 | a region's records all have its code |
| Reference.FirstSeen | climate.c:265-280 | regions in order of first appearance are pairwise distinct |
| Reference.SeenIffSelected | climate.c:265-280 | a region appears in first-appearance order exactly when it has records |
| Reference.FirstExtremeIsFirst | climate.c:235-245 | the front-to-back scan finds a reading that no other beats and that no earlier one equals |
| Reference.FirstExtremeUnique | climate.c:235-245 | there is only one first hottest (first coldest) reading |
| Reference.FirstExtremeSnoc | climate.c:235-245 | a new reading becomes the first extreme exactly when it strictly beats the current one |
| Reference.SummarizeOne | climate.c:189-198 | the summary of a single record is the fresh entry for it |
| Reference.SummarizeSnoc | climate.c:201-247 | the summary of a region's records plus one is the update of its summary with that record |
| Reference.ExpectedShape | climate.c:120-143 | the reference table is well formed, holds regions in first-appearance order, and is empty beyond them |
| Reference.IngestExpected | climate.c:263-280 | one record takes the reference table of a run to the reference table of the run extended by it |
| Reference.ExpectedEmpty | climate.c:120 | with no observations the reference table is the empty table the program starts from |
| Reference.FoldIsExpected | climate.c:250-284 | folding any sequence of observations from the empty table gives exactly the reference table |
| Reference.RegionSummary | climate.c:201-247 | each entry in the final table holds its region's record count, sums, event counts and averages. Every one of its readings lies between the entry's minimum and maximum, and those are the first hottest and first coldest readings with their times |
| Reference.RunIsExpected | climate.c:120-143 | a whole run over any files gives the reference table of their parsed lines |
| Scenarios.SampleLinesParse | climate.c:40-41 | the two first sample records, as tab-separated lines, parse to their observations |
| Scenarios.NewlineLineOfReading | climate.c:40-41 | a record's line with its newline parses to the same observation as without it |
| Scenarios.TrailingTabCounted | climate.c:171-185 | a record cut after eight fields, with a tab before the newline, is skipped without the newline and counted with it, at -459.67 F |
| Scenarios.SampleMeanings | climate.c:40-41 | the sample records stand for CA observations at 1428300000 s and 1430308800 s, with humidity 93 and 4 and temperatures from 277.58716 K and 282.63037 K |
| Scenarios.SampleLinesQualify | climate.c:40-41 | the sample lines meet the conditions of the two-file scenario |
| Scenarios.TwoFilesShareEntry | climate.c:120-143 | two lines of one region, read from two files, share slot 0 and leave every other slot empty |
| Scenarios.TwoFilesOneRegion | climate.c:120-143 | the sample lines from two files give one CA entry with two records, an average humidity of 48.5, the maximum from the warmer second record and the minimum from the first |
| Scenarios.TwoObservationsOneEntry | climate.c:263-280 | two records of one region give one entry in slot 0: the first creates it and the second updates it |
| Scenarios.TieKeepsEarlierTime | climate.c:236-245 | on equal temperatures both extremes keep the time of the earlier record |
| Scenarios.ShortLineSkipped | climate.c:256-261 | a line with five fields changes nothing |
| AsWritten.FirstTouchAsWritten | climate.c:189-198 | as written, a new entry is consistent exactly when the heap held averages equal to the record's values and a minimum not above the maximum, and it is the corrected entry exactly when the heap held what the correction writes |
| AsWritten.LeftoverShowsThrough | climate.c:189-198 | whatever the heap held, some record gets a wrong average and a wrong maximum as written; the leftover averages do not outlive a second record, whose update gives the same averages as the corrected entry |
| AsWritten.MinimumStuckOnLeftover | climate.c:242-245 | as written, if all readings are warmer than the leftover minimum, the reported minimum is a temperature no reading had |
| AsWritten.ZeroedHeapMinimum | climate.c:242-245 | with a zeroed heap and readings of 40 and 50 degrees, the written code reports a minimum of 0 and the corrected code reports 40 |
| AsWritten.ToInt32 | climate.c:158 | narrowing to a 32-bit `int` gives a value in range that is congruent modulo 2^32, and leaves values already in range unchanged |
| AsWritten.ToLong | climate.c:158 | `strtol` keeps a value that fits a 64-bit `long` and clamps any other to `LONG_MIN` or `LONG_MAX` |
| AsWritten.TimestampAsWritten | climate.c:158 | as written (`strtol`, clamped to `long`, narrowed to `int`, divided by 1000), every timestamp lies within 2147483 seconds (under 25 days) of the epoch, whatever the field says |
| AsWritten.ClampedTimestamp | climate.c:158 | as written, a millisecond count beyond the range of a `long` is clamped and narrowed to -1 or 0, so its timestamp is 0 |
| AsWritten.TimestampsAgreeInRange | climate.c:158 | for millisecond counts that fit in 32 bits, the written and the corrected timestamps agree |
| AsWritten.SampleTimestampWraps | climate.c:158 | the first sample's 1428300000000 ms becomes -1924109 as written but 1428300000 corrected |

## Left out

- Reading files: `fopen`, `fgets` and `fclose` are left out. Each file is
  given as its sequence of lines.
  - The model does not stop the whole run with `EXIT_FAILURE` when a file
    cannot be opened.
  - The usage message for a missing argument is not modelled.
- The 100-byte `fgets` buffer is left out. A line longer than 99
  characters is read by the program as two or more lines, and the model
  does not split it.
- `print_report` and the printed output, including `ctime` of the extreme
  times, are left out: they are output formatting only.
- `long double` rounding is left out. Sums, averages and the Kelvin to
  Fahrenheit conversion are exact rational arithmetic.
- `atof` is modelled only on plain decimal notation with an optional point.
  Exponents, hexadecimal floats, `inf` and `nan` are not modelled, and
  neither are locale-dependent decimal points.
- Memory management is left out: `malloc` returning NULL, and the records
  that are never freed. So is the `time` field of the record, which is set
  once and never read by the fold.
- Observations.RegionCode: `strncpy` copies two characters and never writes
  the terminator, so `strcmp` in `analyze_file` may read past them into
  uninitialised memory. The model compares the copied characters only.
- Observations.CreateState: for a line with fewer than nine fields, the
  source passes uninitialised token pointers to `create_state`. This is
  undefined behaviour, and `state_tokens` never returns NULL. The model
  rejects such lines, which is what the NULL check in `analyze_file`
  evidently intends. No single wrong output can be named, so this is not
  listed under Findings.
- Numeric.Atoi: returns a mathematical integer. The clamp of `strtol` to a
  64-bit `long` and the 32-bit `int` that the C function returns are
  modelled separately by `AsWritten.ToLong` and `AsWritten.ToInt32`, and
  the consequence is listed under Findings.
- A `char` of the model stands for one byte of the line, and lines are
  assumed to hold no NUL byte. `strtok`, `atoi`, `atof` and `strncpy` all
  stop at a NUL, which the model treats as an ordinary character. A region
  code is two bytes, so a code with a multi-byte character is cut where the
  model, counting characters, would not; codes are assumed to be ASCII.

## Findings

| source | as written | input that shows it | evidently intended | confidence | as-written member | corrected member |
|---|---|---|---|---|---|---|
| climate.c:189-198 | the first record of a region leaves `avg_humidity`, `avg_cloudcov`, `avg_temp`, `max_temp`, `max_time`, `min_temp` and `min_time` as `malloc` left them; later comparisons use those values | heap zeroed, two CA records at 40 F and 50 F: the reported minimum is 0 F; a region with one record reports leftover averages | the first record seeds the averages with its own values and the extremes with its temperature and time | medium, not executed | AsWritten.ZeroedHeapMinimum | Aggregate.FirstTouch |
| climate.c:158 | `atoi` of the 13-digit millisecond timestamp gives an `int`. With glibc on a 64-bit target, this is `strtol` (clamped to a 64-bit `long`) narrowed to 32 bits, which wraps | the field 1428300000000 narrows to -1924109568, so the timestamp is -1924109 s (December 1969) instead of 1428300000 s (April 2015) | parse the milliseconds at full width and then divide by 1000 | medium, not executed | AsWritten.SampleTimestampWraps | Observations.TimestampOfMillis |
