# FileIterator in Dafny

A model of the two classes at the heart of the PHP library FileIterator:

- `BaseIterator`, a restartable cursor over the records of an open file. It implements
  PHP's `Iterator` interface (`current`, `key`, `next`, `rewind`, `valid`). It leaves the
  extraction of one record to its concrete subclasses.
- `SplitterIterator`, the concrete iterator for delimited files (CSV, TSV). Its `getLine`:
  1. reads one raw line with `fgets`;
  2. trims carriage returns and line feeds from both ends;
  3. splits the line with `str_getcsv`;
  4. trims the enclosure character from both ends of every field.

The project has five files; each module follows one part of the program:

| file | module | contents |
|---|---|---|
| `wrappers.dfy` | `Wrappers` | `Option`, `Result` and `Outcome` |
| `php_strings.dfy` | `PhpStrings` | `fgets`'s line boundary (`LineEnd`) and `trim`/`ltrim`/`rtrim` with a character list |
| `csv.dfy` | `Csv` | a stated model of `str_getcsv`, and a writer of enclosed records used to state round trips |
| `base_iterator.dfy` | `Cursor` | the class `BaseIterator` and opening a file |
| `splitter_iterator.dfy` | `Splitter` | `getLine` of SplitterIterator, the class `SplitterIterator` and its properties |

How the model is built:

- **The stream.** An open stream is the file contents `data` and a read position `pos`.
  End of stream (`feof`) is `pos == |data|`.
- **`getLine`.** PHP's abstract `getLine` becomes an *extraction step*: a partial function
  from contents and position to one record and the next position.
  - `Cursor.StepContract` states what every step promises: it runs whenever data remains,
    it strictly advances, and it stays within the data.
  - `BaseIterator` holds its step as a constant field, so the concrete iterators supply it
    instead of overriding a method.
  - `SplitterIterator` holds the cursor it drives, built with its own step.
- **Ghost record log.** `consumed` is a ghost field holding the records produced since the
  last rewind.
  - `Coherent` is kept by every method: the index is `|consumed| - 1`, the current record
    is the last one consumed, and the position is inside the data. `Valid` adds that the
    cursor is not valid only at the end of the stream.
  - `OnTrack` ties the log to the contents: `Records(getLine, data, 0) == consumed +
    Records(getLine, data, pos)`. A rewind establishes it and every advance keeps it. A
    direct call of the public `getLine` of SplitterIterator moves the position past a
    line without producing a record, so it breaks `OnTrack`. The cursor can still
    advance and rewind afterwards, as in PHP.
- **Opening a file.** The file system is a parameter, a `map` from file names to contents.
- **`str_getcsv`.** The splitter is a small explicit state machine, `Csv.Fields`, in the
  spirit of rules 5 to 7 of section 2 of RFC 4180:
  - outside an enclosed span, the delimiter ends a field;
  - an enclosure character at the start of a field opens a span;
  - inside a span the delimiter is ordinary, a doubled enclosure is one literal enclosure,
    and a single enclosure closes the span.

Two facts about the code shape the model:

- The line trim removes carriage returns and line feeds from both ends of the line, not only from the tail.
- `fgets` breaks lines only at `'\n'`, so bare `'\r'` line endings are not line endings.
  The carriage-return test writes `"\n"` line endings anyway, because its `addFile` helper
  ignores its line-ending argument.

## Model

| member | source | states |
|---|---|---|
| Cursor.StepContract | src/Chrisguitarguy/FileIterator/BaseIterator.php:174 | what a concrete `getLine` must do for the cursor: it can run whenever data remains, it consumes at least one character, and it never reads past the end |
| Cursor.Records | src/Chrisguitarguy/FileIterator/BaseIterator.php:134-143 | the records successive advances produce from a position: none exactly at the end of the data, and never more than the characters left |
| Cursor.BaseIterator.constructor | src/Chrisguitarguy/FileIterator/BaseIterator.php:61-93 | a fresh cursor is open, has current record null, index -1 and is valid, has read nothing (position 0), and satisfies the class invariant with its log on track |
| Cursor.BaseIterator.Current | src/Chrisguitarguy/FileIterator/BaseIterator.php:114-117 | returns the stored record, which is the last record produced since the rewind when there is one; reads only |
| Cursor.BaseIterator.Key | src/Chrisguitarguy/FileIterator/BaseIterator.php:124-127 | returns the stored index, which is one less than the number of records produced since the rewind and never below -1; reads only |
| Cursor.BaseIterator.IsValid | src/Chrisguitarguy/FileIterator/BaseIterator.php:162-165 | returns the validity flag; it is false only at the end of the stream; reads only |
| Cursor.BaseIterator.GetResource | src/Chrisguitarguy/FileIterator/BaseIterator.php:183-190 | succeeds exactly when the handle is open, and otherwise fails with the no-resource error |
| Cursor.BaseIterator.Next | src/Chrisguitarguy/FileIterator/BaseIterator.php:134-143 | with data left: valid, current is the step's record, position moves strictly forward to the step's next position, index + 1, record appended to the log; at the end: not valid, current, index and position unchanged; without an open handle: fails and changes nothing; keeps the invariant, and keeps the log on track when it was; runs also after a direct `getLine` call |
| Cursor.BaseIterator.Rewind | src/Chrisguitarguy/FileIterator/BaseIterator.php:150-155 | from any state, including the one a direct `getLine` call leaves: seeks to 0, resets the index and advances once: on non-empty data index 0, the first record of the file current, valid; on empty data not valid, index -1; the log is on track afterwards; fails and changes nothing without an open handle |
| Cursor.BaseIterator.Close | src/Chrisguitarguy/FileIterator/BaseIterator.php:102-107 | afterwards the handle is closed, whether or not it was open, so closing twice is harmless |
| Cursor.BaseIterator.Foreach | src/Chrisguitarguy/FileIterator/Test/FileIteratorTest.php:56-73 | from any state, a foreach (rewind, then take key and current and advance while valid) yields exactly the file's records in order, keyed 0 to N - 1, and ends at the end of the stream and not valid |
| Cursor.BaseIterator.ForeachTwice | src/Chrisguitarguy/FileIterator/Test/FileIteratorTest.php:75-95 | iterating to exhaustion twice yields the same (key, record) sequence both times, of one pair per record of the file |
| Cursor.Open | src/Chrisguitarguy/FileIterator/BaseIterator.php:199-209 | opening fails with a resource-open error naming the file exactly when the file does not exist; otherwise a fresh unstarted cursor on its contents |
| PhpStrings.LineEnd | src/Chrisguitarguy/FileIterator/SplitterIterator.php:58 | the line read from a position ends just past the first '\n' after it, or at the end of the data when there is none; it is never empty |
| PhpStrings.Trim | src/Chrisguitarguy/FileIterator/SplitterIterator.php:58 | the result begins and ends with no character of the list, and is a middle slice of the input with only characters of the list cut from the two ends |
| PhpStrings.TrimUntrimmed | src/Chrisguitarguy/FileIterator/SplitterIterator.php:58 | a string that neither begins nor ends with a listed character is returned unchanged |
| PhpStrings.TrimIdempotent | src/Chrisguitarguy/FileIterator/SplitterIterator.php:58 | trimming twice is trimming once |
| PhpStrings.TrimDropsSuffix | src/Chrisguitarguy/FileIterator/SplitterIterator.php:58 | appending listed characters does not change the trim |
| Csv.StrGetCsv | src/Chrisguitarguy/FileIterator/SplitterIterator.php:62 | every line, the empty line included, splits into at least one field |
| Csv.SplitWithoutEnclosure | src/Chrisguitarguy/FileIterator/SplitterIterator.php:62 | without enclosure characters, the fields contain neither delimiter nor enclosure and join with the delimiter back to the line |
| Csv.JoinInjective | src/Chrisguitarguy/FileIterator/SplitterIterator.php:62 | two non-empty delimiter-free field lists that join to the same line are equal, so the cut at every delimiter is the only such split |
| Csv.EnclosedSpan | src/Chrisguitarguy/FileIterator/SplitterIterator.php:62 | inside a span, an escaped field followed by the closing enclosure is read back as that field, delimiters and doubled enclosures included |
| Csv.ParseEncoded | src/Chrisguitarguy/FileIterator/SplitterIterator.php:62 | round trip: a line that writes every field as an enclosed span splits back into exactly those fields, when delimiter and enclosure differ |
| Csv.EnclosedDelimiterExample | src/Chrisguitarguy/FileIterator/SplitterIterator.php:62 | `a,b,"c,d"` splits into `a`, `b`, `c,d` |
| Csv.DoubledEnclosureExample | src/Chrisguitarguy/FileIterator/SplitterIterator.php:62 | a doubled enclosure inside a span is one literal enclosure: `"x""y",z` splits into `x"y`, `z` |
| Csv.Fields | src/Chrisguitarguy/FileIterator/SplitterIterator.php:62 | the `str_getcsv` state machine: from any scanner state the rest of the line yields at least one field |
| Splitter.DecodeLine | src/Chrisguitarguy/FileIterator/SplitterIterator.php:56-62 | the record of one raw line is never empty and has one field for every field of the split of the line trimmed of CR and LF |
| Splitter.TrimFields | src/Chrisguitarguy/FileIterator/SplitterIterator.php:60-62 | the per-field map keeps the number and order of fields, and each field is the trim of the field at the same place |
| Splitter.FgetsStep | src/Chrisguitarguy/FileIterator/SplitterIterator.php:54-63 | reading one line as `fgets` does and decoding it is a valid extraction step: it runs when data remains, advances and stays inside the data |
| Splitter.SplitStep | src/Chrisguitarguy/FileIterator/SplitterIterator.php:54-63 | the splitter's `getLine` is a valid extraction step for the cursor |
| Splitter.SplitStepReadsLine | src/Chrisguitarguy/FileIterator/SplitterIterator.php:54-63 | one step decodes the raw line from the position through the next '\n' and leaves the stream just past it |
| Splitter.ScanLine | src/Chrisguitarguy/FileIterator/SplitterIterator.php:58 | the scan for the end of the line stops just past the first '\n', or at the end of the data |
| Splitter.SplitterIterator.constructor | src/Chrisguitarguy/FileIterator/SplitterIterator.php:44-49 | stores exactly the delimiter and enclosure given, ',' and '"' by default, over a fresh unstarted cursor whose step is the splitter's |
| Splitter.SplitterIterator.GetLine | src/Chrisguitarguy/FileIterator/SplitterIterator.php:54-63 | a direct call reads and decodes the line from the position through the next '\n' and moves the position past it; at the end it returns the single empty field and stays; it fails without an open handle; it changes only the position, and the cursor stays coherent and valid |
| Splitter.OpenSplitter | src/Chrisguitarguy/FileIterator/SplitterIterator.php:44-49 | constructing on a missing file fails with a resource-open error naming it; otherwise the iterator is fresh, with the given delimiter and enclosure, ',' and '"' by default |
| Splitter.TrimFieldsUnchanged | src/Chrisguitarguy/FileIterator/SplitterIterator.php:60-61 | fields that neither begin nor end with the enclosure are left as they are |
| Splitter.TrimFieldsIdempotent | src/Chrisguitarguy/FileIterator/SplitterIterator.php:60-61 | applying the per-field trim again changes nothing |
| Splitter.DecodedFieldsTrimmed | src/Chrisguitarguy/FileIterator/SplitterIterator.php:58-62 | the record has as many fields as the split of the trimmed line, in order; each is that field with the enclosure cut from the ends only; none begins or ends with the enclosure; re-trimming changes nothing |
| Splitter.DecodeWithoutEnclosure | src/Chrisguitarguy/FileIterator/SplitterIterator.php:58-62 | when the trimmed line holds no enclosure, the record is the line cut at every delimiter: delimiter-free fields joining back to the trimmed line |
| Splitter.LineEndingIgnored | src/Chrisguitarguy/FileIterator/SplitterIterator.php:58 | trailing CR and LF characters make no difference to the record, so '\n' and "\r\n" terminated lines decode alike |
| Splitter.EmptyLineRecord | src/Chrisguitarguy/FileIterator/SplitterIterator.php:58-62 | an empty raw line decodes to the single empty field |
| Splitter.DecodeEncodedLine | src/Chrisguitarguy/FileIterator/SplitterIterator.php:54-63 | a line written as enclosed fields, with or without a final '\n', decodes back to the record written |
| Splitter.ReadEncodedFile | src/Chrisguitarguy/FileIterator/SplitterIterator.php:54-63 | a file of one or more records, written as lines joined by '\n' as the tests write theirs, is read back by the splitter's step as exactly those records, in order |
| Splitter.TabSeparatedExample | examples/tsv_example.php:5 | with the tab delimiter, the line `a<TAB>b<TAB>c` plus '\n' decodes to `a`, `b`, `c` |
| Splitter.EnclosedDelimiterRecord | src/Chrisguitarguy/FileIterator/SplitterIterator.php:58-62 | with the defaults, the line `a,b,"c,d"` plus "\r\n" decodes to `a`, `b`, `c,d` |

## Left out

- Opening and closing files with `fopen`, `fclose` and `error_get_last`, and the exception message text, are operating-system input and output. The file system is a map parameter, the handle is the `open` flag, and the exceptions are the `Error` values `ResourceOpenError` and `NoResourceError`.
- Cursor.BaseIterator.Next: end of stream is the position being at the end of the data. PHP's `feof` flag is raised only by a read that runs out of data. As written, a file ending in '\n', or an empty file, goes through one more read than the model does. That read returns false, which the splitter decodes as `[""]`. This extra record is not modelled.
- Splitter.ReadEncodedFile: only files with no line feed after the last record are covered, the format the tests write with `implode("\n", …)`. On a file whose last record ends in '\n', and on the empty file, PHP's `feof` is still false after the last line. `next()` then reads once more, and `getLine` decodes the failed read as `[""]`. So PHP yields the records followed by one extra `[""]` record, or `[[""]]` for the empty file. The model, with end of stream at the end of the data, yields no such record.
- `str_getcsv` is a library function whose source is not part of this model. `Csv.Fields` models it as a documented simplified splitter. It does not model the backslash escape parameter, whitespace handling, or PHP's `[null]` for an empty line; an empty line is modelled as one empty field.
- Bare '\r' line endings: `fgets` does not break on them, so no CR-only support is claimed.
- The class `FileIterator` used by the tests is not part of this model, so its `getLine` is unknown. The cursor lemmas hold for every extraction step, and the tests' foreach and restart properties are stated on the generic cursor.
- The example scripts' `echo` loops write to the console. Only the TSV delimiter choice is modelled.
- Destructor timing and garbage collection are not modelled; closing is the explicit `Close` method.
- Character ranges such as `a..z` in `trim`'s character list are not modelled. The character lists here are `"\r\n"` and the single enclosure character, which contain none.
- The stream position moves inside `Cursor.BaseIterator.Next`, from the position the step returns. The step does not move a shared handle itself. `Splitter.SplitterIterator.GetLine` models a direct call that moves the position.
- The PHP `Iterator` interface and class inheritance are not modelled. `SplitterIterator` holds its cursor, and `BaseIterator` holds its step as a field.
