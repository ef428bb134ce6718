# StdfExtractor PRR extraction — a Dafny model

This project models the core of `StdfExtractor`. The extractor reads an STDF V4 test-data file within a byte window `[startPos, endPos)`. It collects the Part Results Records (PRRs) found there, converts them to JSON elements and frees them afterwards. The source has two revisions of the extractor class, and both are modelled, selected by `Revision`:

- `Current` is `extractor.h`. Its canonical PRR type code is 16. Its record guard also bounds head and site. Its string sanitizer escapes `\`, `"` and `/` and masks non-printable bytes.
- `Early` is `extractosr.h`. Its canonical PRR type code is 5. Its record guard checks only the two bins. Its sanitizer passes bytes below 128 and masks all others.

Modules:

- `StdfRecords` (`stdf_records.dfy`) holds the values the STDF library hands to the extractor: the PRR fields, the FAR fields and header reads. It also holds `StdfFile`, one snapshot of a file as seen through the library. At every cursor position it records:
  - what a header read reports;
  - what `StdfPRR::parse` yields;
  - whether the following skip fails.
- `WindowValidator` (`window_validator.dfy`) holds the window clamp and `isInRange`.
- `TypeClassifier` (`type_classifier.dfy`) holds `isPrrRecordType`.
- `RecordScanner` (`record_scanner.dfy`) models `extractPrrRecords`. It has four parts:
  - `Step` is one loop iteration;
  - `ScanFrom` is the trace of iterations from a cursor;
  - `Extract` is the whole call, including the FAR gate;
  - `ExtractPrrRecords` is the loop itself, proved to return `ExtractedRecords`, the records the trace keeps.
- `ResultSerializer` (`result_serializer.dfy`) models `sanitizeString` as a loop proved against `Sanitized`. It also models the record-to-element mapping of `savePrrRecords`.
- `RecordSink` (`record_sink.dfy`) models `freePrrRecords` on a vector object.

Both revisions check the window bound from the cursor left by the header read, not from the record start. As a result, a kept record always ends a whole header (4 bytes) before the window end. `KeptIffAccepted` states this. Some checks in the source can never decide anything, and the model makes this visible:

- The sanity check on the length of an in-range non-PRR record (`extractor.h:387`) never fires. Only a record that fails `isInRange` can stop the scan for its length (`StepRules`).
- A header read that reaches the end of the file without failing sets only the stream's eof flag. `tellg()` inside `isInRange` then fails and reports -1, so the record counts as out of range. The skip that follows cannot move a failed stream, so the scan stops there without decoding the record (`EofReadEndsScan`). The loop's own `eof()` test therefore never ends a scan: no iteration leaves the eof flag set (`Step`).
- Every path of the invalid-position handler leaves the loop. The counter of consecutive invalid positions therefore never reaches 5, and `ExtractPrrRecords` keeps it at 0 as a loop invariant.

The two branches handle the cursor differently. After a PRR is decoded, the loop continues from the cursor the header read left. After a skip, it moves on by the declared length. Which of these lands on the next header depends on how much of the record `StdfHeader::read` consumes. The model keeps that amount as a parameter (`HeaderRead.extra`) and does not decide it.

## Model

| member | source | states |
|---|---|---|
| `WindowValidator.NormalizeWindow` | extractor.h:210-225 | a negative start becomes 0; a negative end or one past the file size becomes the file size; a window whose start is not before its end after clamping yields nothing, and an end of 0 always does; a negative start with an end in 1..file size gives the window [0, end); any window returned lies inside the file |
| `WindowValidator.IsInRange` | extractor.h:43-83 | true exactly when the cursor is non-negative, the length is in 0..100000, the cursor is at or after the window start and cursor + 4 + length does not pass the window end; a negative cursor or out-of-ceiling length is always false |
| `TypeClassifier.IsPrrRecordType` | extractor.h:124-179 | true exactly for 16, 25 and 185 in the current revision and for 5, 25 and 185 in the earlier one; never for the FAR type 0 |
| `TypeClassifier.RevisionsDisagreeOnlyOnCanonicalCodes` | extractosr.h:525-573 | the two revisions classify every type code alike except 5 and 16, each accepted only by its own revision |
| `RecordScanner.IsSanePrr` | extractor.h:358-370 | the current guard keeps a PRR exactly when both bins are at least -10000 and head and site are at most 255; the earlier guard drops the head/site condition |
| `RecordScanner.EarlyGuardIsWeaker` | extractosr.h:313-322 | the earlier guard accepts everything the current one does, and additionally exactly the records with sane bins whose head or site exceeds 255 |
| `RecordScanner.Step` | extractor.h:279-404 | an iteration that does not stop moves the cursor forward by at least one header, or to the failed-stream position -1; no iteration leaves the eof flag set |
| `RecordScanner.StepRules` | extractor.h:281-402 | every fate is characterised exactly: a record is kept exactly when it is read without reaching the end of the file, in range, PRR-typed, decoded and sane; it is decoded at all exactly when it is in range and PRR-typed; kept and dropped PRRs continue from the post-header cursor; a skip advances by exactly the declared length; a negative cursor, a failed read, an out-of-range record with length 0 or less or above 100000, or a record to be skipped whose skip fails stops the scan; a read that reaches the end of the file always stops it; no in-range record stops it for its length |
| `RecordScanner.EofReadEndsScan` | extractor.h:316-338 | a header read that sets eof without failing is the last iteration, and nothing is kept from it |
| `RecordScanner.ScanFrom` | extractor.h:279-280 | the loop runs at least once exactly when its condition (cursor before the window end, eof not set) holds, and its trace starts at the cursor it is given |
| `RecordScanner.ScanFromFollowsStep` | extractor.h:279-404 | every visit has the fate one iteration gives its cursor and lies before the window end; only the last visit can stop the scan; each cursor is the one the previous iteration left |
| `RecordScanner.ScanFromEnds` | extractor.h:279 | the scan never gives up early: its last visit either stops the scan or leaves a cursor at or past the window end |
| `RecordScanner.ScanIsDetermined` | extractor.h:279-404 | a trace that starts at a cursor, follows the iterations and runs to the end is exactly the scan from that cursor |
| `RecordScanner.ScanFromAscending` | extractor.h:279-404 | the valid cursors of the scan start at the initial cursor and later visits lie at least a header beyond earlier ones |
| `RecordScanner.Extract` | extractor.h:190-269 | a call yields visits exactly when the file opens, the clamped window is not empty and, for a window starting at 0, the FAR gate passes; its first visit is at the initial cursor |
| `RecordScanner.ExtractShape` | extractor.h:227-279 | a nonempty trace of the call follows the iterations over the clamped window from the initial cursor, ascends, and runs until an iteration stops it or the cursor leaves the window; with `ScanIsDetermined` this fixes the trace completely |
| `RecordScanner.KeptIffAccepted` | extractor.h:344-375 | each visited record is kept exactly when it is accepted (read without failure or end of file, in range, PRR-typed, decoded, sane); a kept record decoded to exactly the returned value, starts at or after the window start, and ends at least one header before the window end |
| `RecordScanner.ExtractedRecordsInFileOrder` | extractor.h:364-366 | the returned records are matched one to one with the kept visits, in strictly increasing file order |
| `RecordScanner.AbortKeepsEarlierRecords` | extractor.h:283-412 | a stop is always the last iteration, and every record kept before it is still returned |
| `RecordScanner.FarGateDecides` | extractor.h:234-266 | at offset 0 a first record not of type 0, or a FAR with a CPU type other than 2 or a version other than 4, yields nothing; a passing FAR whose header read did not fail starts the scan at offset 0; after a failed read the scan stops at once on an invalid position |
| `RecordScanner.NothingToDo` | extractor.h:192-225 | a file that does not open or a window that is empty after clamping yields nothing |
| `RecordScanner.EarlyKeptIffBinsSane` | extractosr.h:299-327 | in the earlier revision a visited record is kept exactly when it is read without reaching the end of the file, in range, of type 5, 25 or 185, decoded, and both bins are at least -10000 |
| `RecordScanner.ExtractScansWindow` | extractor.h:227-279 | past the open check, the clamp and the FAR gate, the result is what the scan of the window from the initial cursor keeps |
| `RecordScanner.ReadRecord` | extractor.h:307-404 | the body of one iteration at a valid cursor behaves as one step of the scan, and only keeps records that pass the guard |
| `RecordScanner.ExtractPrrRecords` | extractor.h:190-413 | returns exactly the records the scan of the call keeps, all of which pass the guard |
| `ResultSerializer.CString` | extractor.h:104 | the string a character pointer denotes is the buffer's prefix before its first NUL |
| `ResultSerializer.SanitizeString` | extractor.h:100-121 | a null pointer yields the empty string; otherwise the result is the sanitized form of the bytes before the terminating NUL |
| `ResultSerializer.SanitizedLength` | extractor.h:104-120 | the output is as long as the input plus one byte per backslash, double quote and slash |
| `ResultSerializer.SanitizedIsPrintable` | extractor.h:106-118 | every output byte of the current sanitizer is printable ASCII (32..126) |
| `ResultSerializer.UnescapeSanitized` | extractor.h:108-117 | removing the escapes restores the input with every non-printable byte replaced by `?` |
| `ResultSerializer.SanitizeKeepsPrintableDistinct` | extractor.h:108-114 | two different printable strings have different sanitized forms |
| `ResultSerializer.EarlySanitizedPointwise` | extractosr.h:117-131 | the earlier sanitizer keeps the input's length, keeps each byte below 128 and replaces each other byte with `?` |
| `ResultSerializer.SanitizedIsAscii` | extractosr.h:121-127 | both sanitizers emit only 7-bit ASCII |
| `ResultSerializer.ToElement` | extractor.h:483-516 | an element copies the record's fields; eot and last_modified are the sync time and eot - sot is the elapsed time in whole seconds, rounded down; the part id, and in the current revision the part text, are present exactly when the record has them and are sanitized; only the current revision writes coordinates, part flags and part text |
| `ResultSerializer.Elements` | extractor.h:482-519 | one element per record, in record order |
| `ResultSerializer.ToJsonRecord` | extractor.h:483-518 | the loop body builds exactly the element of its record |
| `ResultSerializer.SavePrrRecords` | extractor.h:423-538 | succeeds exactly when the output opens, and then writes one element per record in order; an empty vector succeeds with an empty array |
| `RecordSink.FreePrrRecords` | extractor.h:545-555 | the vector is empty afterwards |

## Left out

- The STDF library (`StdfHeader::read`, `StdfPRR::parse`, `StdfFAR::parse` and the PRR getters) is not part of this model. What it reports at each cursor is a parameter of the file snapshot, so every property holds whatever the library decodes. Field widths are unbounded integers.
- File I/O is not modelled: opening the file, `seekg` and `tellg`, and the stream's `fail` and `eof` flags. They are fields of `StdfFile`. The re-probed file length of the invalid-position handler is one such field, and since the handler always leaves the loop, the end it adjusts is never used again.
- Header reads that throw: the outer `catch` of the loop stops the scan like a failed read. Both are the `failed` flag of a header read.
- Exceptions escaping the FAR gate before the loop are not modelled.
- The output file is not modelled: the `mkdir -p` call, opening and writing the stream, the JSON text layout, the comment line of the empty output and exceptions from the JSON library. The output is the element sequence, and whether the file opens is a parameter.
- Memory release in `freePrrRecords` is not modelled beyond the vector becoming empty.
- Logging, `formatPosition`, the diagnostic type-frequency table of `isPrrRecordType` and the record counters are left out, as are `index.cpp` (message queue, rsync and threads) and `logger.h`. None of them affects the returned records.
- `WindowValidator.IsInRange` does not model 64-bit overflow in `cursor + 4 + length`. Its only overflow guard is kept, and with lengths capped at 100000 it cannot trigger.
- `ResultSerializer.ToElement` does not model overflow of `time_t` in `sync_time - elapsed_ms/1000`.
- `ResultSerializer.CString` treats a buffer without a NUL as ending at its end. The source reads on past it.
