# HeavyFileSorter sort engine, modelled in Dafny

HeavyFileSorter sorts a text file that may be too large for memory. Each line
holds one record, written `"<number>. <text>"`. The sort works in four steps:

1. Guard: it refuses to start unless the disk has three times the file size
   free.
2. Cut: it picks a chunk size from the file size and the I/O thread count,
   then cuts the file into chunks, each ending at a line break.
3. Chunk files: it reads every chunk's lines into records, sorts them and
   writes them to a chunk file.
4. Merge: it opens one cursor per chunk file, each reading at most 5000
   records at a time. It then repeatedly takes the smallest next record and
   appends the records to the output in large batches.

A separate check reads a file line by line and reports whether it is
sorted.

Records are ordered by their text first, compared ignoring case. Ties on
the text are broken by the number.

This project models that core as pure functions and short methods over
immutable data:

- **Files as data.** A file is its text; a chunk file is the records it
  holds. Exceptions become the `Fault` cases of a `Result`.
- **`Results`:** `Result`, `Option`, `Concat`, and `Gather`. `Gather` runs a
  step over a list and stops at the first failure.
- **`Strings`:** the .NET string operations the parser relies on: `IndexOf`,
  `Trim`, `IsNullOrWhiteSpace`, and `Split`/`Join`.
- **`Decimal`:** `long.ToString()` and `long.TryParse` on 64-bit values.
- **`Entities`:** the record, with `ToString`, `CompareTo`, `Equals` and
  `GetHashCode`.
- **`LineParsing`:** `ParseEntityFromString` and the parsing of whole texts.
- **`Ordering`:** sortedness and the in-memory sort of one chunk.
- **`ChunkText`:** `ReadEntitiesChunkFromFileAsync`. It reads in blocks of
  2048 characters and carries the unfinished last line from one block to
  the next.
- **`Borders`:** the chunk-size formula, the free-space guard,
  `FindNearestNewLinePositionAsync`, and `FindPrecisedChunkBordersAsync`,
  both as written and corrected.
- **`ChunkReader`:** `ReadLimitedCountEntitiesFromJsonFileAsync` and the
  `SortedChunkReader` cursor.
- **`Merge`:** `MergeChunksIntoOneFileAsync`, covering `MinBy`, the take,
  the removal of finished readers, and the buffered flushes. Both the
  version as written and a corrected version are modelled.
- **`SortCheck`:** `CheckFileSorted`.
- **`Pipeline`:** `MakeChunksAsync` and `ProcessDataInFileAsync`, built once
  from the corrected border list and merge and once from the versions as
  written.

Three behaviours of the code that shape the model:

- **Comparison result.** `Entity.CompareTo` returns whatever
  `string.Compare` returns, a difference of unbounded size
  (DataProcessor/Entity.cs:43-48). Every caller uses only its sign, so the
  model returns the sign.
- **Which readers the merge picks from.** The merge loop picks among all
  cursors still in its list (DataProcessor/DataProcessingHelper.cs:183-185).
  A cursor whose chunk file is empty is completed after its first read but
  is never removed (see Findings).
- **Free-space guard.** When space is short, `ProcessDataInFileAsync`
  prints a message and returns normally
  (DataProcessor/DataProcessingHelper.cs:99-103). The model returns
  `Err(NotEnoughFreeSpace)` for that early return.

## Model

| member | source | states |
|---|---|---|
| Decimal.Digits | DataProcessor/Entity.cs:19 | the decimal digits of a natural number: at least one digit, and their value is the number |
| Decimal.FormatInt64 | DataProcessor/Entity.cs:19 | `long.ToString()`: a minus sign exactly for a negative number, followed by decimal digits whose value is the number's magnitude, with no leading zero unless the number is 0 |
| Decimal.ParseFormatInt64 | DataProcessor/DataProcessingHelper.cs:304 | `long.TryParse` (`Decimal.TryParseInt64`) of a rendered 64-bit number gives back that number, for every 64-bit value |
| Decimal.TrailingNulIgnored | DataProcessor/DataProcessingHelper.cs:304 | appending a '\0' to any text never changes what `long.TryParse` returns, because it accepts trailing '\0' characters after the digits |
| Decimal.PaddingOrder | DataProcessor/DataProcessingHelper.cs:304 | after the digits, white space followed by '\0' characters is accepted ("12 \0\0" reads 12), while a '\0' followed by white space is not |
| Strings.IndexOf | DataProcessor/DataProcessingHelper.cs:297 | the position of the first occurrence of the character, or -1 exactly when the character does not occur |
| Strings.Trim | DataProcessor/DataProcessingHelper.cs:309 | the result has no white space at either end and is never longer than the input; trimmed input is unchanged; the result is empty exactly when the input is all white space; the result is a stretch of the input with only white space before and after it |
| Strings.TrimAfterWhiteSpace | DataProcessor/DataProcessingHelper.cs:309 | trimming leading white space followed by an already trimmed text gives that text |
| Strings.Split | DataProcessor/DataProcessingHelper.cs:239 | splitting yields at least one piece, and no piece contains the separator |
| Strings.SplitJoin | DataProcessor/DataProcessingHelper.cs:239 | splitting the join of separator-free pieces gives back the pieces |
| Strings.JoinSplit | DataProcessor/DataProcessingHelper.cs:239 | joining the pieces of a split with the separator gives back the text |
| Strings.SplitAtSeparator | DataProcessor/DataProcessingHelper.cs:239 | splitting at a separator splits the two sides independently and concatenates the results |
| Entities.FormatLayout | DataProcessor/Entity.cs:17-20 | `ToString` (`Entities.Format`) is the number's digits, then the first '.' of the line, then a space and the text |
| LineParsing.FormatHasNoNewLine | DataProcessor/Entity.cs:19 | a record whose text has no line break renders without one |
| Entities.CompareNumber | DataProcessor/Entity.cs:51 | `long.CompareTo`: negative exactly when the first number is smaller, 0 exactly when they are equal |
| Entities.CompareTextIsFoldedOrder | DataProcessor/Entity.cs:43 | the case-insensitive compare (`Entities.CompareText`) is 0 exactly when the upper-cased texts are equal, and negative exactly when the upper-cased first text is lexicographically smaller |
| Entities.CompareTextReflexive | DataProcessor/Entity.cs:43 | every text compares equal to itself |
| Entities.CompareTextAntisymmetric | DataProcessor/Entity.cs:43 | swapping the texts negates the comparison |
| Entities.CompareTextTransitive | DataProcessor/Entity.cs:43 | the text comparison is transitive, strictly when either step is strict |
| Entities.CompareTo | DataProcessor/Entity.cs:39-53 | comparing to null gives -1; comparing to a record is negative exactly when this record's key (case-folded text, then number) is smaller, zero exactly when both parts of the keys agree, and positive exactly when the other key is smaller |
| Entities.CompareIsKeyOrder | DataProcessor/Entity.cs:43-52 | the record order is the text order, with the number deciding ties; it is negative exactly when the first record is lower by that key, and 0 exactly when the folded texts and the numbers are equal |
| Entities.CompareReflexive | DataProcessor/Entity.cs:39-53 | every record compares equal to itself |
| Entities.CompareAntisymmetric | DataProcessor/Entity.cs:39-53 | swapping the records negates the comparison |
| Entities.CompareTransitive | DataProcessor/Entity.cs:39-53 | the record order is transitive, strictly when either step is strict, so it is a total preorder that sorting can use |
| Entities.EqualsImpliesCompareZero | DataProcessor/Entity.cs:27-37 | records equal under `Equals` (`Entities.Equals`: ordinal text and number) compare as 0 |
| Entities.EqualsImpliesSameHash | DataProcessor/Entity.cs:22-25 | records equal under `Entities.Equals` have equal hash codes (`Entities.HashCode`), whatever the string hash is |
| Entities.CaseVariantsCompareEqualButDiffer | DataProcessor/Entity.cs:27-53 | two records differing only in the case of their text compare as 0 but are not `Equals` |
| Entities.CollationExample | DataProcessor/Entity.cs:43 | the record (2, "banana") sorts before (5, "Banana"): case is ignored and the number decides |
| LineParsing.ParseEntity | DataProcessor/DataProcessingHelper.cs:295-325 | a line fails with the missing-dot error exactly when it has no '.'; otherwise, splitting at the first '.', it fails with the number error exactly when the part before does not parse as a 64-bit number, with the empty-text error exactly when that number parses and the rest is blank, and with the too-long error exactly when the number parses and the trimmed rest exceeds 1024 characters; a parsed record has that number and, as text, the rest without its blank ends, 1 to 1024 characters long |
| LineParsing.Assemble | DataProcessor/DataProcessingHelper.cs:304-324 | a record is built exactly when the number parsed and the text has 1 to 1024 characters |
| LineParsing.ParseFormat | DataProcessor/DataProcessingHelper.cs:295-325 | parsing a rendered record gives back that record exactly when its text is a valid record text |
| LineParsing.NulBeforeDot | DataProcessor/DataProcessingHelper.cs:297-324 | the line "12\0. x" parses to the record (12, "x"): a '\0' between the number and the dot is accepted |
| LineParsing.ParseRecordLine | DataProcessor/DataProcessingHelper.cs:295-325 | the text of one rendered writable record parses to that record alone |
| LineParsing.ParseLinesAppend | DataProcessor/DataProcessingHelper.cs:240-246 | parsing two runs of lines is parsing the first and then the second |
| LineParsing.FirstFailureWins | DataProcessor/DataProcessingHelper.cs:244 | the first line that fails to parse decides the failure, whatever follows |
| LineParsing.ParseTextAt | DataProcessor/DataProcessingHelper.cs:239 | parsing a text cut at a '\n' is parsing the part before, then the part after |
| LineParsing.ParseRenderedLines | DataProcessor/DataProcessingHelper.cs:282-293 | the output file's text, one rendered record per line, parses back to exactly those records |
| Ordering.SortedIffAdjacent | DataProcessor/DataProcessingHelper.cs:128 | a sequence is sorted exactly when each record is at least its predecessor, the only pairs the check compares |
| Ordering.Insert | DataProcessor/DataProcessingHelper.cs:346 | inserting into a sorted sequence keeps it sorted and adds exactly that record |
| Ordering.SortEntities | DataProcessor/DataProcessingHelper.cs:346 | `List.Sort`: the result is sorted and is a permutation of the input |
| ChunkText.RangeText | DataProcessor/DataProcessingHelper.cs:224-235 | the characters between a start and an end position: the slice when both lie in the file, and nothing when the end is not past the start |
| ChunkText.Blocks | DataProcessor/DataProcessingHelper.cs:229-237 | the reads of at most 2048 characters, which together are the whole range |
| ChunkText.NextBlock | DataProcessor/DataProcessingHelper.cs:237-250 | splitting the carried line plus the next block and carrying its last piece continues the line split of the whole text |
| ChunkText.ParseCompleteLines | DataProcessor/DataProcessingHelper.cs:240-246 | parsing all lines but the last one either extends the records so far, or fails at the first failing line |
| ChunkText.ParseLastLine | DataProcessor/DataProcessingHelper.cs:253-257 | the line left after the last block is parsed, unless it is blank |
| ChunkText.FailureInside | DataProcessor/DataProcessingHelper.cs:244 | a line failing inside a block is the first failure of the whole text's lines |
| ChunkText.ReadEntitiesChunk | DataProcessor/DataProcessingHelper.cs:227-257 | reading in blocks, whatever the block boundaries, gives exactly the parse of the whole text: records of the non-blank lines in order, or the first bad line's error |
| ChunkText.ReadEntitiesChunkFromFile | DataProcessor/DataProcessingHelper.cs:214-261 | reading from a start to an end position gives the parse of the text between them |
| Borders.CalculateFileChunkSize | DataProcessor/DataProcessingHelper.cs:472-483 | fails by division by zero exactly on one thread; otherwise the chunk size is the smaller of the file size divided by twice the thread count and 2 GB divided by half the thread count, in integer division: the largest size within both bounds |
| Borders.FirstNewLine | DataProcessor/DataProcessingHelper.cs:425-431 | the first '\n' in a window, or -1 exactly when the window has none |
| Borders.FindNearestNewLine | DataProcessor/DataProcessingHelper.cs:410-434 | the first '\n' within 1024 characters of the position, or -1 exactly when there is none there (including at or past the end) |
| Borders.ScanBorders | DataProcessor/DataProcessingHelper.cs:379-404 | the borders found by the loop are increasing line breaks inside the file, each at least one chunk past the last; a scan that runs out ends at the file's last character |
| Borders.BorderRunIncreases | DataProcessor/DataProcessingHelper.cs:379-404 | every border of a run lies at a line break at least a chunk past the start, and the borders strictly increase |
| Borders.FindChunkBordersAsWritten | DataProcessor/DataProcessingHelper.cs:371-408 | the border list as written is 0 followed by the scan's borders; only when a step passes the file end does one more border follow, the last position if the file ends in '\n' and -1 otherwise |
| Borders.FindChunkBorders | DataProcessor/DataProcessingHelper.cs:371-408 | the corrected border list starts at 0, never decreases, stays inside the file, and ends at the file's end or at a line break |
| Borders.ChunkTexts | DataProcessor/DataProcessingHelper.cs:443-446 | one chunk text per pair of neighbouring borders |
| Borders.ChunksCoverFile | DataProcessor/DataProcessingHelper.cs:371-408 | the chunks between the corrected borders hold between them exactly the file's records, in file order, or fail as parsing the whole file fails |
| Borders.LastLineLost | DataProcessor/DataProcessingHelper.cs:382-385 | a two-record file without a final newline gets the border list [0, 4, -1] as written, and its chunks hold only the first record |
| Borders.TailLost | DataProcessor/DataProcessingHelper.cs:394-398 | the same file with chunk size 2: no newline lies after the cut point 7, so the loop stops with the border list [0, 4] and the chunks hold only the first record |
| Borders.CorrectedKeepsTail | DataProcessor/DataProcessingHelper.cs:371-408 | the corrected borders of the same file end at the file size, and its chunks hold both records |
| Borders.AsWrittenMissesLastChar | DataProcessor/DataProcessingHelper.cs:379-404 | on any file whose last character is not '\n', every border as written after the first lies before that character, so no chunk reads it |
| Borders.AsWrittenStopsShort | DataProcessor/DataProcessingHelper.cs:394-398 | when the loop stops because no '\n' follows a target, every border as written lies more than a chunk before the end, so the file's last chunk + 1 characters belong to no chunk |
| Borders.CorrectedReachesEnd | DataProcessor/DataProcessingHelper.cs:371-408 | in both of those situations the corrected border list ends at the file size |
| ChunkReader.ReadLimited | DataProcessor/DataProcessingHelper.cs:11-91 | the next records after the position, at most the limit of them; finished exactly when the file ended before the limit was reached; a limit of 0 gives an empty finished batch from the start of the file and an index error from any later position |
| ChunkReader.ReadChunk | DataProcessor/SortedChunkReader.cs:19-26 | replaces the batch by the next records of the file: 5000 of them, or all that are left when fewer remain; completed exactly when the file ended and the batch is empty |
| ChunkReader.OpenIsValid | DataProcessor/SortedChunkReader.cs:19-26 | after the first read (`ChunkReader.Open`) the reader is consistent and still has every record of its file to give |
| ChunkReader.Peek | DataProcessor/SortedChunkReader.cs:45-51 | the batch's record at the index, or an index error exactly when the index is past the batch |
| ChunkReader.PeekIsNext | DataProcessor/SortedChunkReader.cs:45-51 | a consistent reader shows a record exactly when it is not completed, and that record is the next one still to come |
| ChunkReader.TakeEntity | DataProcessor/SortedChunkReader.cs:28-43 | hands out the record at the index, failing exactly when the index is past the batch |
| ChunkReader.TakeAdvances | DataProcessor/SortedChunkReader.cs:28-43 | taking from a reader that is not completed hands out its next record and leaves a consistent reader with exactly the rest |
| ChunkReader.CompletedIffExhausted | DataProcessor/SortedChunkReader.cs:37-40 | a consistent reader is completed exactly when no record remains |
| ChunkReader.Drain | DataProcessor/SortedChunkReader.cs:28-43 | taking until completed yields exactly the remaining records, in file order |
| Merge.OpenAll | DataProcessor/DataProcessingHelper.cs:154-176 | one reader per chunk file, each after its first read |
| Merge.OpenAllPool | DataProcessor/DataProcessingHelper.cs:154-176 | the opened readers have, between them, exactly the records of all chunk files |
| Merge.OpenCompletedIffEmpty | DataProcessor/SortedChunkReader.cs:25 | a reader is completed after its first read exactly when its chunk file is empty |
| Merge.OpenAllGood | DataProcessor/DataProcessingHelper.cs:154-176 | readers of sorted chunk files are consistent and give sorted records; none is completed exactly when no chunk file is empty |
| Merge.MinBy | DataProcessor/DataProcessingHelper.cs:185 | `MinBy`: fails exactly when some reader's getter fails; otherwise it picks a reader with the smallest next record, the first one in list order |
| Merge.KeysIffLive | DataProcessor/DataProcessingHelper.cs:185 | every reader's getter succeeds exactly when no reader is completed |
| Merge.StepKeepsState | DataProcessor/DataProcessingHelper.cs:185-195 | taking from the picked reader appends the smallest pending record, keeps the output sorted, keeps output plus pending equal to the start, and shrinks the pending records |
| Merge.LoopStep | DataProcessor/DataProcessingHelper.cs:185-202 | one loop iteration keeps the loop state, whether or not the buffer fills and is flushed |
| Merge.LastBatch | DataProcessor/DataProcessingHelper.cs:206-209 | after the loop, the full batches plus the non-empty remainder are full except the last, which is not empty |
| Merge.MergeLoop | DataProcessor/DataProcessingHelper.cs:183-209 | the loop fails exactly when some reader is completed before the first step; otherwise its batches are sorted, hold exactly the pending records, and are full except the last |
| Merge.MergeChunksAsWritten | DataProcessor/DataProcessingHelper.cs:148-212 | the merge as written fails with an index error exactly when some chunk file is empty; otherwise it writes all chunk records, sorted, in full batches |
| Merge.DropCompleted | DataProcessor/DataProcessingHelper.cs:192-195 | no kept reader is completed |
| Merge.DropCompletedPool | DataProcessor/DataProcessingHelper.cs:192-195 | dropping the completed readers loses no record and leaves only readers that have one |
| Merge.MergeChunks | DataProcessor/DataProcessingHelper.cs:148-212 | the corrected merge writes exactly the records of all chunk files, sorted, in full batches except the last |
| SortCheck.FirstBreak | DataProcessor/DataProcessingHelper.cs:125 | the position of the first '\r' or '\n', or the end of the text when it has none |
| SortCheck.ReadLinesCons | DataProcessor/DataProcessingHelper.cs:125 | `ReadLine`, as `SortCheck.ReadLines` splits a text, returns the text up to a "\n", "\r\n" or lone "\r" ending, then continues after it |
| SortCheck.CheckLines | DataProcessor/DataProcessingHelper.cs:119-141 | the check answers true exactly when every line is a record and the records are in order; false only at a record below its predecessor; a failure only at the first bad line |
| SortCheck.CheckFileSorted | DataProcessor/DataProcessingHelper.cs:117-142 | the same verdict on the lines `ReadLine` returns from the file text |
| SortCheck.SortedVerdict | DataProcessor/DataProcessingHelper.cs:141 | on sorted records the verdict is true |
| SortCheck.BadLineVerdict | DataProcessor/DataProcessingHelper.cs:127 | a bad line after sorted records fails the check with its own error |
| SortCheck.OutOfOrderVerdict | DataProcessor/DataProcessingHelper.cs:128-131 | a record below its predecessor makes the verdict false |
| SortCheck.ReadRenderedLines | DataProcessor/DataProcessingHelper.cs:125 | reading the lines of the output's text gives exactly the rendered records |
| SortCheck.ParseFormats | DataProcessor/DataProcessingHelper.cs:127 | every rendered readable record parses back to itself |
| SortCheck.CheckSeesRecords | DataProcessor/DataProcessingHelper.cs:125-127 | the check reads back exactly the records written to the output |
| SortCheck.VerdictOnRecords | DataProcessor/DataProcessingHelper.cs:117-142 | on lines that parse, the verdict is true exactly when the records are sorted, and false exactly when they are not |
| SortCheck.CheckDecidesRendered | DataProcessor/DataProcessingHelper.cs:117-142 | on an output file of readable records the check decides sortedness exactly: true when sorted, false otherwise |
| Pipeline.ChunkTextAt | DataProcessor/DataProcessingHelper.cs:443-446 | chunk i is the text between borders i and i + 1 |
| Pipeline.PickChunk | DataProcessor/DataProcessingHelper.cs:334-355 | one chunk's file: fails exactly when the chunk's text has a bad line, with that line's error; otherwise the file is sorted and holds exactly the chunk's records |
| Pipeline.MakeChunks | DataProcessor/DataProcessingHelper.cs:436-470 | one sorted chunk file per chunk; fails exactly as parsing the chunks fails, with the first failing chunk's error; otherwise chunk file k holds, in sorted order, exactly the records of chunk k |
| Pipeline.ProcessData | DataProcessor/DataProcessingHelper.cs:96-110 | refuses below three times the file size free; fails on one thread; otherwise fails exactly when the file has a bad line, and else writes exactly the file's records, sorted, in full batches except the last |
| Pipeline.ProcessDataAsWritten | DataProcessor/DataProcessingHelper.cs:96-110 | with the border scan and merge as written: the same refusal and one-thread failure; fails with a chunk's parse error when a chunk of that scan has a bad line; otherwise fails with an index error exactly when some chunk holds no record, and else writes exactly the records of those chunks, sorted, in full batches except the last |
| Pipeline.EmptyFileIffEmptyChunk | DataProcessor/DataProcessingHelper.cs:436-470 | some chunk file is empty, which the merge as written cannot handle, exactly when some chunk's text holds no record |
| Pipeline.AsWrittenLosesLastLine | DataProcessor/DataProcessingHelper.cs:382-398 | on "1. a\n2. b" with two threads the chunk size is 2, the scan as written cuts at 0 and 4 only, and its chunks hold the first record alone while the file parses to both |

## Left out

- File I/O is not modelled. Files are strings, and a chunk file is the sequence of records it holds.
- The batch decode passes `buffer.AsSpan(0, bytesRead)` to `Utf8JsonReader` even after the synthetic '[' moved the data one byte along (DataProcessingHelper.cs:39), so the span's last byte is missed on such a read; the model decodes whole records and does not follow this.
- Text lengths and the ordinal order count UTF-16 code units in the source (the 1024-character limit, `string.Compare`); the model counts Dafny characters, which agree for characters outside the surrogate range.
- JSON is not modelled. Serialising a chunk file and decoding it in batches are modelled as record sequences and record counts. This covers the `'['` re-synthesis, the byte offsets and the guard that stops a read when fewer than 2048 bytes are left.
- Byte buffering of the batch read is not modelled. The source re-reads its byte buffer from the last decoded record when fewer than 2048 bytes are left in it (DataProcessingHelper.cs:60-66); the model takes records directly.
- Stream positions versus characters are not modelled. A position is a character index. The source seeks by bytes and reads characters through a buffered `StreamReader`; this agrees only for one-byte characters.
- Concurrency is not modelled. The semaphore, `Task.Run` and the `ConcurrentBag` collections are left out. Chunks are read one after another. `Task.WhenAll` reports the first failing task in list order, and the model keeps that order.
- Merge.MergeLoop: readers are taken in chunk order. The source takes them in whatever order the `ConcurrentBag` yields. The merge contracts do not depend on the order.
- The merge buffer of 10,000,000 records (DataProcessingHelper.cs:178) is the parameter `capacity`.
- System calls become parameters: the file size, the free disk space and `Environment.ProcessorCount` (the thread count).
- Entities.HashCode: `string.GetHashCode` is randomised per process, so it is a parameter.
- Entities.CompareText: the `en-US` culture with `OrdinalIgnoreCase` is modelled as ASCII upper-casing followed by ordinal order; case mappings outside ASCII are left out.
- Entities.CompareText: it returns only the sign of `string.Compare`'s result. Every caller uses only the sign.
- Decimal.TryParseInt64: it accepts `long.TryParse`'s integer style: leading white space, a leading sign, ASCII digits, then white space and '\0' characters. Culture-specific signs and digits are left out.
- Pipeline.ProcessData: it composes the corrected border list and merge, so it writes every record of the file. The source as written can lose the records after the last border or fail in the merge; Pipeline.ProcessDataAsWritten models that composition and Pipeline.AsWrittenLosesLastLine shows a two-line file whose second record is not written.
- Borders.IsEnoughFreeSpace: the model computes with unbounded integers. The source's `fileSize * 3` would overflow only for files of more than about 3 * 10^18 bytes.
- The branch `chunkBorder > endPosition` (DataProcessingHelper.cs:388-391) is not modelled because it cannot run. At that point `chunkBorder` is the previous loop start, which is below `endPosition`.
- Output line endings: `WriteLineAsync` ends each output line with the platform newline. The model uses "\n". A "\r\n" ending reads back the same (SortCheck.ReadLinesCons).
- Console messages and progress counters are left out.
- `DeserializeEntitiesFromBinaryFile`, the temp-file naming, the command-line program and the test-data generator are not part of this model.

## Findings

| source | as written | input that shows it | evidently intended | confidence | as-written member | corrected member |
|---|---|---|---|---|---|---|
| DataProcessor/DataProcessingHelper.cs:382-385 | once a chunk step passes the file end, the final border is the newline search from the last character, which is -1 unless the file ends in '\n'; the last chunk `[b, -1)` is then read as empty | the file "1. a\n2. b" scanned with chunk size 4 gives borders [0, 4, -1]; record "2. b" is in no chunk, and the empty last chunk file then meets the third finding | the last border is the file size, so the last chunk runs to the end of the file (Borders.LastLineLost and Borders.CorrectedKeepsTail show the example) | not executed | Borders.AsWrittenMissesLastChar | Borders.CorrectedReachesEnd |
| DataProcessor/DataProcessingHelper.cs:394-398 | when no newline lies within 1024 characters of a cut point, the loop stops without a final border, so the rest of the file belongs to no chunk | the same file with chunk size 2: the cut point 7 has no newline after it, so the borders are [0, 4] and "2. b" is lost | the border list always ends at the file size, so the chunks cover the file (Borders.ChunksCoverFile; Borders.TailLost shows the example) | not executed | Borders.AsWrittenStopsShort | Borders.CorrectedReachesEnd |
| DataProcessor/DataProcessingHelper.cs:180-185 | readers are not dropped when their first read is already completed; `MinBy` then reads `Entities[0]` of an empty batch and throws | any chunk file with no records, e.g. a chunk of blank lines, or the empty last chunk of the first finding | completed readers are dropped before the loop | not executed | Merge.MergeChunksAsWritten | Merge.MergeChunks |
