# IoTHighPerf activity-file path, modelled in Dafny

IoTHighPerf serves time, manifests and file chunks to ticketing devices. Each
request is written to an append-only audit log. A background generator
tails that log and turns the audit lines into numbered binary "activity
files". This project models that path and proves properties of the model:

- **Audit-entry serializer** (`FasterAuditLogger.SerializeAuditEntry` and
  its four `Log*Async` entry builders). It writes a 27-character timestamp
  buffer, `|`, the request type, `|` and the details, as UTF-8, into an
  array sized by the strings' UTF-16 lengths.
- **Log subscriber** (`FasterSubscriber.SubscribeAsync`). Pass after pass,
  it scans the log from a cursor that starts at address 0. Every non-null
  record goes to the handler. The handler's failures are swallowed, and the
  cursor moves past every record.
- **Generator** (`ReactiveActivityGenerator`):
  - `ParseAuditEntry`: UTF-8 decode, split on `|`, at least four fields,
    exact `yyyy-MM-ddTHH:mm:ss.fff` timestamp;
  - the forwarding of parsed entries;
  - batches of at most `MaxBatchSize`;
  - the file stage and the log stage run one batch after another.
- **Activity-file writer** (`ActivityFileWriter`):
  - the fixed-width base-36 encoder;
  - the file name `S` + site + base36(days since 1987-01-01, 3) +
    base36(counter + 1, 4) + `.BIN`;
  - the 35+4-byte `NC` record;
  - the order of effects: write the temporary file, move it without
    overwriting, and only then save the counter.
- **Counter store** (`CounterManager`). It keeps three lines of text (date,
  counter, last file name). A missing or unreadable file stands for
  `(today, 0, "")`. Each operation runs under a single lock.
- **JSON tick responses**:
  - `TimeServiceInit.BuildJsonResponse` and `BuildJsonResponseOptimise` in
    the API, which write `{"time":<ticks>}` into a caller's buffer;
  - the ZeroMQ `TimeServer.BuildJsonResponse`, which builds
    `{"Value":<ticks>}` in a fresh array.
- **Chunk validation**: `ChunkRequest.IsValid`.

**How state is modelled.**
- The file system is a map from path to bytes, held by a `FileSystem`
  object.
- The counter file is an `Option<string>` field of `CounterManager`, which
  also has a lock field.
- The clock (`now`, `today`), the log's contents (`passes`) and the
  handler's failures (`fails`) are parameters.

Supporting modules model the .NET library behaviour the core relies on:

- `Common`: `int32` wrap-around, C# truncating `/` and `%`, and ASCII.
- `Positional` and `Decimal`: positional digits, `ToString()` of integers,
  and `int.TryParse` with `NumberStyles.Integer`.
- `Calendar`:
  - the proleptic Gregorian dates and times;
  - `yyyy-MM-dd` and `yyyy-MM-ddTHH:mm:ss.fff` formatting and parsing;
  - day numbers.
- `Utf8`: UTF-8 encoding and decoding with U+FFFD replacement, and UTF-16
  lengths.
- `Buffers`: `Buffer.BlockCopy`, `Span.CopyTo` and `Encoding.UTF8.GetBytes`
  into an array.

The serializer and the parser do not agree. The serializer writes two
separators, so an entry has three fields. The parser demands four. So an
entry whose type and details hold no `|` is never parsed back:
`AuditLog.SerializedNeverParsed` states this as observed behaviour.

Two smaller behaviours are kept as the code has them:
- Device identifiers longer than 19 UTF-16 units are written whole, not
  truncated, and the record's length field then understates the record.
- The default site identifier `CTD_API-----------`
  (IoTHighPerf.ActivityGenerator/Models/ActivityFileOptions.cs:5) is 18
  characters, though its comment says 19. The model takes any site string.

## Model

| member | source | states |
|---|---|---|
| Common.Increment | IoTHighPerf.ActivityGenerator/Services/ActivityFileWriter.cs:30 | `Counter + 1` in unchecked 32-bit arithmetic: the successor below `int.MaxValue`, and congruent to it modulo 2^32 always |
| Common.CsRem | IoTHighPerf.ActivityGenerator/Services/ActivityFileWriter.cs:117-118 | C# `%` with `/`: `a == (a / b) * b + a % b`, and the remainder takes the sign of `a` |
| Positional.ValueOfDigits | IoTHighPerf.ActivityGenerator/Services/ActivityFileWriter.cs:115-119 | the `w` digits the countdown loop produces in base `b` read back as `v mod b^w` |
| Positional.DigitsOfValue | IoTHighPerf.ActivityGenerator/Services/ActivityFileWriter.cs:115-119 | a digit sequence is the digit expansion of its own value (the inverse direction) |
| Positional.DigitsMod | IoTHighPerf.ActivityGenerator/Services/ActivityFileWriter.cs:115-119 | the digits of `v` and of `v mod b^w` agree: the high part of `v` is dropped |
| Decimal.IntString | IoTHighPerf.ActivityGenerator/Services/CounterManager.cs:63 | `ToString()` of an integer: at least one character, a `-` for a negative value |
| Decimal.TryParseInt32 | IoTHighPerf.ActivityGenerator/Services/CounterManager.cs:39 | `int.TryParse`: white space, an optional sign, digits and trailing NULs, within the `int` range |
| Decimal.ParseIntString | IoTHighPerf.Infrastructure/ZeroMQ/TimeServer.cs:104 | the decimal text of every integer parses back to that integer |
| Decimal.TryParseInt32String | IoTHighPerf.ActivityGenerator/Services/CounterManager.cs:37-39 | `int.TryParse` of `counter.ToString()` succeeds and gives the counter back |
| Decimal.Int64StringLength | IoTHighPerf.Api/Program.cs:137 | the decimal text of any `long` has at most 20 characters |
| Decimal.IntStringAscii | IoTHighPerf.Api/Program.cs:137-138 | the decimal text of an integer is ASCII, so its UTF-8 has one byte per character |
| Calendar.FormatDate | IoTHighPerf.ActivityGenerator/Services/CounterManager.cs:62 | `ToString("yyyy-MM-dd")`: ten characters |
| Calendar.ParseDate | IoTHighPerf.ActivityGenerator/Services/CounterManager.cs:38 | `DateOnly.TryParse` of a `yyyy-MM-dd` line: digit fields and a day that exists |
| Calendar.FormatTimestamp | IoTHighPerf.Infrastructure/Audit/FasterAuditLogger.cs:97-98 | `TryFormat("yyyy-MM-ddTHH:mm:ss.fff")`: 23 characters |
| Calendar.ParseTimestamp | IoTHighPerf.ActivityGenerator/Services/ReactiveActivityGenerator.cs:151 | `DateTime.ParseExact` with `yyyy-MM-ddTHH:mm:ss.fff`, nothing where it throws |
| Calendar.DaysSince1987 | IoTHighPerf.ActivityGenerator/Services/ActivityFileWriter.cs:29 | the whole days from 1987-01-01 to the date, negative before it |
| Calendar.ParseFormatDate | IoTHighPerf.ActivityGenerator/Services/CounterManager.cs:62 | a date saved as `yyyy-MM-dd` parses back to the same date |
| Calendar.FormatParseDate | IoTHighPerf.ActivityGenerator/Services/CounterManager.cs:38 | every accepted date line is exactly the `yyyy-MM-dd` text of the date it gives |
| Calendar.ParseFormatTimestamp | IoTHighPerf.ActivityGenerator/Services/ReactiveActivityGenerator.cs:151 | `ParseExact` of a `yyyy-MM-ddTHH:mm:ss.fff` text gives the time back to the millisecond |
| Calendar.FormatParseTimestamp | IoTHighPerf.ActivityGenerator/Services/ReactiveActivityGenerator.cs:151 | every text `ParseExact` accepts is exactly the formatted text of the time it gives |
| Calendar.DaysSince1987Examples | IoTHighPerf.ActivityGenerator/Services/ActivityFileWriter.cs:29 | 1987-01-01 is day 0 and 2024-01-01 is day 13514 |
| Calendar.DayNumberIncreases | IoTHighPerf.ActivityGenerator/Services/ActivityFileWriter.cs:29 | a later date has a larger day count since 1987-01-01 |
| Calendar.DaysSince1987NonNegative | IoTHighPerf.ActivityGenerator/Services/ActivityFileWriter.cs:29 | dates from 1987-01-01 on have a non-negative day count |
| Calendar.DaysSince1987Range | IoTHighPerf.ActivityGenerator/Services/ActivityFileWriter.cs:29 | the day count of any `DateOnly` lies strictly within ±3652059 |
| Utf8.Encode | IoTHighPerf.Infrastructure/Audit/FasterAuditLogger.cs:109-121 | `Encoding.UTF8.GetBytes`: each character's one to four UTF-8 bytes, in order |
| Utf8.Decode | IoTHighPerf.ActivityGenerator/Services/ReactiveActivityGenerator.cs:146 | `Encoding.UTF8.GetString`: never more characters than bytes, one U+FFFD per ill-formed subpart |
| Utf8.Utf16Length | IoTHighPerf.Infrastructure/Audit/FasterAuditLogger.cs:101-103 | C#'s `string.Length`: between the character count and twice it |
| Utf8.DecodeEncode | IoTHighPerf.ActivityGenerator/Services/ReactiveActivityGenerator.cs:146 | decoding the UTF-8 encoding of a string gives the string |
| Utf8.DecodeEncodeChar | IoTHighPerf.ActivityGenerator/Services/ReactiveActivityGenerator.cs:146 | the decoder reads one encoded character back and consumes exactly its bytes, whatever follows |
| Utf8.EncodeAppend | IoTHighPerf.Infrastructure/Audit/FasterAuditLogger.cs:109-121 | encoding distributes over concatenation, so pieces encoded one after another make the encoding of the whole |
| Utf8.EncodeAscii | IoTHighPerf.Infrastructure/Audit/FasterAuditLogger.cs:103-105 | ASCII text encodes to one byte per character, equal to the character's code |
| Utf8.EncodedLength | IoTHighPerf.Infrastructure/Audit/FasterAuditLogger.cs:103 | UTF-8 length ≥ UTF-16 length ≥ character count, with UTF-8 length equal to the UTF-16 length exactly for ASCII |
| Utf8.AsciiLiteral | IoTHighPerf.Infrastructure/ZeroMQ/TimeServer.cs:25-26 | an ASCII literal's UTF-8 is its character codes, so the byte constants are the encodings of their texts |
| Buffers.Overwrite | IoTHighPerf.Infrastructure/ZeroMQ/TimeServer.cs:107-109 | the written range holds the copied bytes and every other byte is as before |
| Buffers.BlockCopy | IoTHighPerf.Infrastructure/ZeroMQ/TimeServer.cs:107-109 | a copy that fits overwrites exactly its range; one that does not raises `ArgumentException` and writes nothing |
| Buffers.GetBytes | IoTHighPerf.Api/Program.cs:138 | `Encoding.UTF8.GetBytes` into an array: text that fits is written at the offset and its byte count returned; otherwise the bytes that fit are written and `ArgumentException` follows |
| Counters.ReadLines | IoTHighPerf.ActivityGenerator/Services/CounterManager.cs:36 | `File.ReadAllLines`: the lines of the text, split at `\n`, `\r` or `\r\n`, with no empty line after a final break |
| Counters.WriteLines | IoTHighPerf.ActivityGenerator/Services/CounterManager.cs:60-65 | `File.WriteAllLines`: every line followed by a line break |
| Counters.DecodeCounterFile | IoTHighPerf.ActivityGenerator/Services/CounterManager.cs:34-46 | the state `GetCurrentCounterAsync` reads from the file, or `(today, 0, "")` |
| Counters.EncodeCounterFile | IoTHighPerf.ActivityGenerator/Services/CounterManager.cs:60-65 | the three lines `SaveCounterAsync` writes: date, counter, last file name |
| Counters.NextLinePrefix | IoTHighPerf.ActivityGenerator/Services/CounterManager.cs:36 | the first line read from any text is a prefix of it and holds no line break |
| Counters.ReadLinesAfter | IoTHighPerf.ActivityGenerator/Services/CounterManager.cs:36 | lines written by `WriteAllLines` and followed by any text are read back first, exactly |
| Counters.ReadWriteLines | IoTHighPerf.ActivityGenerator/Services/CounterManager.cs:60-65 | `ReadAllLines` of what `WriteAllLines` wrote gives the lines back when none holds a break |
| Counters.MissingFileDefaults | IoTHighPerf.ActivityGenerator/Services/CounterManager.cs:34-46 | no counter file means `(today, 0, "")` |
| Counters.CorruptFileResets | IoTHighPerf.ActivityGenerator/Services/CounterManager.cs:37-46 | fewer than two lines, an unparseable date or a non-`int` counter line means `(today, 0, "")` |
| Counters.MissingThirdLine | IoTHighPerf.ActivityGenerator/Services/CounterManager.cs:41 | a file of only the date and the counter gives an empty last file name |
| Counters.OnlyThreeLinesRead | IoTHighPerf.ActivityGenerator/Services/CounterManager.cs:41 | whatever follows the three saved lines is ignored |
| Counters.DecodeThreeLines | IoTHighPerf.ActivityGenerator/Services/CounterManager.cs:36-42 | a text whose first three lines are a state's saved lines reads as that state |
| Counters.DecodeEncodeCounterFile | IoTHighPerf.ActivityGenerator/Services/CounterManager.cs:60-65 | after a save, the read gives the saved date and counter, and a prefix of the saved last file name |
| Counters.CounterRoundTrip | IoTHighPerf.ActivityGenerator/Services/CounterManager.cs:36-65 | save then read returns the saved state when the last file name has no line break |
| Counters.CounterManager.constructor | IoTHighPerf.ActivityGenerator/Services/CounterManager.cs:13-17 | the store starts over the given file with its lock free |
| Counters.CounterManager.GetCurrentCounter | IoTHighPerf.ActivityGenerator/Services/CounterManager.cs:29-52 | gives the decoded state, or the device's error. The file is unchanged, so two reads agree and the counter never moves by itself. The lock is released on every path |
| Counters.CounterManager.SaveCounter | IoTHighPerf.ActivityGenerator/Services/CounterManager.cs:54-72 | replaces the file with exactly the three lines of the state, or reports the device's error and leaves the file. The lock is released on every path |
| ActivityFiles.AlphabetDigits | IoTHighPerf.ActivityGenerator/Services/ActivityFileWriter.cs:112 | the alphabet has 36 distinct base-36 characters, each standing for its index |
| ActivityFiles.Base36 | IoTHighPerf.ActivityGenerator/Services/ActivityFileWriter.cs:110-122 | `ConvertToBase36`: a result of exactly `length` characters; a negative length raises an overflow and a negative remainder an out-of-range index; any non-negative value succeeds |
| ActivityFiles.Base36OfNat | IoTHighPerf.ActivityGenerator/Services/ActivityFileWriter.cs:110-122 | for a non-negative value the result is the text of its `w` base-36 digits, most significant first |
| ActivityFiles.Base36NonNegative | IoTHighPerf.ActivityGenerator/Services/ActivityFileWriter.cs:110-122 | exactly `w` characters from `0-9A-Z`, reading back as `v mod 36^w` |
| ActivityFiles.Base36Truncates | IoTHighPerf.ActivityGenerator/Services/ActivityFileWriter.cs:115-119 | a value too wide for `w` characters is silently encoded as `v mod 36^w` |
| ActivityFiles.Base36OfValue | IoTHighPerf.ActivityGenerator/Services/ActivityFileWriter.cs:110-122 | encoding the value of any base-36 text at its own width gives the text back |
| ActivityFiles.Base36NonPositive | IoTHighPerf.ActivityGenerator/Services/ActivityFileWriter.cs:117 | a negative value gives all zeros when `36^w` divides it, and otherwise an out-of-range index |
| ActivityFiles.Base36WrappedCounter | IoTHighPerf.ActivityGenerator/Services/ActivityFileWriter.cs:30-32 | the counter after `int.MaxValue` wraps negative and its base-36 conversion raises |
| ActivityFiles.FileName | IoTHighPerf.ActivityGenerator/Services/ActivityFileWriter.cs:29-32 | a name built is 12 characters longer than the site, and a name is always built from a non-negative day count and a stored counter from -1 to just below `int.MaxValue` |
| ActivityFiles.BatchFileName | IoTHighPerf.ActivityGenerator/Services/ActivityFileWriter.cs:27-32 | the name of a batch comes from its first entry's date and the stored counter |
| ActivityFiles.FileNameLayout | IoTHighPerf.ActivityGenerator/Services/ActivityFileWriter.cs:32 | the name is `S`, the site, 3 base-36 characters for the day count, 4 for counter+1 and `.BIN` |
| ActivityFiles.ConsecutiveFileNames | IoTHighPerf.ActivityGenerator/Services/ActivityFileWriter.cs:27-32 | counters N and N+1 on the same date give names that differ only in the 4 characters before `.BIN` |
| ActivityFiles.FileNameAtLargestCounter | IoTHighPerf.ActivityGenerator/Services/ActivityFileWriter.cs:30-32 | a stored counter of `int.MaxValue` makes the name fail |
| ActivityFiles.FileNameEndsInBin | IoTHighPerf.ActivityGenerator/Services/ActivityFileWriter.cs:32 | every name built ends in `.BIN` |
| ActivityFiles.Combine | IoTHighPerf.ActivityGenerator/Services/ActivityFileWriter.cs:33-34 | the combined path ends with the file name |
| ActivityFiles.TempPathIsNoFinalPath | IoTHighPerf.ActivityGenerator/Services/ActivityFileWriter.cs:33-34 | a temporary path (`.tmp`) is never the final path of any `.BIN` name |
| ActivityFiles.AsciiBytes | IoTHighPerf.ActivityGenerator/Services/ActivityFileWriter.cs:82-83 | `Encoding.ASCII` gives one byte per UTF-16 unit of the text, so the id field is as long as the padded id's `Length` |
| ActivityFiles.AsciiCharBytes | IoTHighPerf.ActivityGenerator/Services/ActivityFileWriter.cs:83 | what `Encoding.ASCII` writes for one character: its code when ASCII, one `?` per UTF-16 unit otherwise, so two for a character outside the Basic Multilingual Plane |
| ActivityFiles.AsciiBytesOfAscii | IoTHighPerf.ActivityGenerator/Services/ActivityFileWriter.cs:57 | on ASCII text the ASCII encoder gives the same bytes as UTF-8: each character's own code |
| ActivityFiles.AsciiBytesAppend | IoTHighPerf.ActivityGenerator/Services/ActivityFileWriter.cs:82-83 | encoding a concatenation is concatenating the encodings |
| ActivityFiles.AsciiSpaces | IoTHighPerf.ActivityGenerator/Services/ActivityFileWriter.cs:82 | the padding spaces encode to one space byte each |
| ActivityFiles.PadRight | IoTHighPerf.ActivityGenerator/Services/ActivityFileWriter.cs:82 | `PadRight(19, ' ')`: the text, then spaces up to 19 UTF-16 units; a longer text unchanged |
| ActivityFiles.PadRightBytes | IoTHighPerf.ActivityGenerator/Services/ActivityFileWriter.cs:82-83 | the padded field is the text's bytes followed by one space byte for each unit it falls short of the width, and its length is the larger of the width and the text's length |
| ActivityFiles.GetExchangeNature | IoTHighPerf.ActivityGenerator/Services/ActivityFileWriter.cs:101-108 | TIME 1, MANIFEST 2, DOWNLOAD 3, CONFIRM 4, any other type 0 |
| ActivityFiles.ExchangeNatures | IoTHighPerf.ActivityGenerator/Services/ActivityFileWriter.cs:101-108 | the nature is non-zero exactly for TIME, MANIFEST, DOWNLOAD and CONFIRM, with a distinct value for each |
| ActivityFiles.FlagsFollowNature | IoTHighPerf.ActivityGenerator/Services/ActivityFileWriter.cs:95-98 | the four flags are `1,1,0,0` exactly when the nature is DOWNLOAD's (3), else `0,0,0,0` |
| ActivityFiles.NCRecord | IoTHighPerf.ActivityGenerator/Services/ActivityFileWriter.cs:54-99 | the bytes one `WriteNCRecord` call appends, field by field in the order the code writes them |
| ActivityFiles.NCHeadLayout | IoTHighPerf.ActivityGenerator/Services/ActivityFileWriter.cs:56-79 | the 13 bytes before the id: `NC`, 35 big-endian, the big-endian year, month, day, hour, minute, second, and two zero bytes |
| ActivityFiles.NCRecordParts | IoTHighPerf.ActivityGenerator/Services/ActivityFileWriter.cs:54-99 | a record is its 13-byte head, the padded id, then direction, nature, result and flags |
| ActivityFiles.NCRecordLayout | IoTHighPerf.ActivityGenerator/Services/ActivityFileWriter.cs:54-99 | the record is, byte by byte: `NC`, 35 big-endian, big-endian year, month, day, hour, minute, second, two zeros, the padded device id at one byte per UTF-16 unit, 1, the nature, 0, the flags |
| ActivityFiles.NCRecordLength | IoTHighPerf.ActivityGenerator/Services/ActivityFileWriter.cs:60-83 | 20 bytes plus the larger of 19 and the device id's UTF-16 length: 39 exactly when the id has at most 19 units, and a longer id is written whole, not truncated. The id's bytes are followed by space bytes up to 19 units. The length field matches the size only in the 39-byte case |
| ActivityFiles.FileBytesAppend | IoTHighPerf.ActivityGenerator/Services/ActivityFileWriter.cs:48-51 | the file of two entry lists is the file of the first followed by the file of the second |
| ActivityFiles.FileOfOne | IoTHighPerf.ActivityGenerator/Services/ActivityFileWriter.cs:48-51 | a one-entry file is that entry's record |
| ActivityFiles.CheckCaseSuffix | IoTHighPerf.ActivityGenerator/Services/ActivityFileWriter.cs:30-32 | stored counter 5 gives the name suffix `0006` |
| ActivityFiles.DownloadRecordTail | IoTHighPerf.ActivityGenerator/Services/ActivityFileWriter.cs:89-98 | a DOWNLOAD record ends with nature 3, result 0 and flags `1,1,0,0` |
| ActivityFiles.CheckCaseRecords | IoTHighPerf.ActivityGenerator/Services/ActivityFileWriter.cs:48-51 | the file of `[TIME, DOWNLOAD]` is the two records in order, and the second has nature 3 and flags `1,1,0,0` |
| ActivityFiles.Publish | IoTHighPerf.ActivityGenerator/Services/ActivityFileWriter.cs:21-41 | `GenerateActivityFileAtomicAsync` on values: an empty batch does nothing; an unbuildable name raises before any write; otherwise the batch is published under that name |
| ActivityFiles.PublishAs | IoTHighPerf.ActivityGenerator/Services/ActivityFileWriter.cs:33-40 | write to the temporary path, move without overwriting, then save (first entry's date, counter+1, name); a taken final path raises and leaves the temporary file |
| ActivityFiles.PublishKeepsOtherFiles | IoTHighPerf.ActivityGenerator/Services/ActivityFileWriter.cs:21-41 | an empty batch or an unbuildable name changes nothing; otherwise every file but the batch's temporary one keeps its content |
| ActivityFiles.PublishAsKeepsOtherFiles | IoTHighPerf.ActivityGenerator/Services/ActivityFileWriter.cs:33-37 | writing and moving a named batch keeps every file except its temporary one |
| ActivityFiles.PublishFailureKeepsCounter | IoTHighPerf.ActivityGenerator/Services/ActivityFileWriter.cs:36-39 | a failed publication never changes the counter file |
| ActivityFiles.PublishSuccess | IoTHighPerf.ActivityGenerator/Services/ActivityFileWriter.cs:21-41 | success creates the final `.BIN` file, which did not exist before, with the batch's records. The temporary file is removed. The counter file then holds (first entry's date, counter+1, name) |
| ActivityFiles.PublishAsSuccess | IoTHighPerf.ActivityGenerator/Services/ActivityFileWriter.cs:33-40 | the same for a batch whose name is given |
| ActivityFiles.PublishAdvancesCounter | IoTHighPerf.ActivityGenerator/Services/ActivityFileWriter.cs:30-39 | after a success the store reads back the first entry's date and the incremented counter |
| ActivityFiles.PublishTwiceFails | IoTHighPerf.ActivityGenerator/Services/ActivityFileWriter.cs:37 | publishing the same batch from the same counter again fails on the existing final file, keeps its content and leaves the counter alone |
| ActivityFiles.FileSystem.constructor | IoTHighPerf.ActivityGenerator/Services/ActivityFileWriter.cs:45 | the file system starts with the given files |
| ActivityFiles.FileSystem.Create | IoTHighPerf.ActivityGenerator/Services/ActivityFileWriter.cs:45 | `FileMode.Create` leaves the path empty and every other file alone |
| ActivityFiles.FileSystem.Append | IoTHighPerf.ActivityGenerator/Services/ActivityFileWriter.cs:46-51 | the bytes go at the end of that file and nothing else changes |
| ActivityFiles.FileSystem.Move | IoTHighPerf.ActivityGenerator/Services/ActivityFileWriter.cs:37 | a missing source or a taken destination without overwrite raises and changes nothing; otherwise the content moves and the source is gone |
| ActivityFiles.BinaryWriter.constructor | IoTHighPerf.ActivityGenerator/Services/ActivityFileWriter.cs:46 | a new writer has written nothing |
| ActivityFiles.BinaryWriter.Write | IoTHighPerf.ActivityGenerator/Services/ActivityFileWriter.cs:57 | each write appends its bytes |
| ActivityFiles.ActivityFileWriter.constructor | IoTHighPerf.ActivityGenerator/Services/ActivityFileWriter.cs:13-19 | the writer keeps its options, file system and counter store |
| ActivityFiles.ActivityFileWriter.ConvertToBase36 | IoTHighPerf.ActivityGenerator/Services/ActivityFileWriter.cs:110-122 | the countdown loop gives exactly `Base36(value, length)` |
| ActivityFiles.ActivityFileWriter.WriteDateTime | IoTHighPerf.ActivityGenerator/Services/ActivityFileWriter.cs:63-76 | appends the big-endian year, month, day, hour, minute and second |
| ActivityFiles.ActivityFileWriter.WriteExchange | IoTHighPerf.ActivityGenerator/Services/ActivityFileWriter.cs:85-98 | appends direction 1, the nature, result 0 and the four flags |
| ActivityFiles.ActivityFileWriter.WriteNCRecord | IoTHighPerf.ActivityGenerator/Services/ActivityFileWriter.cs:54-99 | appends exactly the entry's `NC` record |
| ActivityFiles.ActivityFileWriter.WriteActivityFile | IoTHighPerf.ActivityGenerator/Services/ActivityFileWriter.cs:43-52 | the file at the path is created or replaced with one record per entry, in entry order |
| ActivityFiles.ActivityFileWriter.NameBatch | IoTHighPerf.ActivityGenerator/Services/ActivityFileWriter.cs:27-32 | the name comes from the first entry's date and the stored counter |
| ActivityFiles.ActivityFileWriter.StageFile | IoTHighPerf.ActivityGenerator/Services/ActivityFileWriter.cs:33-37 | the batch is written to the temporary path and moved to the final one, unless that is taken |
| ActivityFiles.ActivityFileWriter.GenerateActivityFileAtomic | IoTHighPerf.ActivityGenerator/Services/ActivityFileWriter.cs:21-41 | the result, the files and the counter file are those `Publish` describes, and the store's lock is free afterwards |
| ActivityFiles.ActivityFileWriter.PublishFile | IoTHighPerf.ActivityGenerator/Services/ActivityFileWriter.cs:33-40 | the same for a batch whose name is known |
| Generator.SplitParts | IoTHighPerf.ActivityGenerator/Services/ReactiveActivityGenerator.cs:147 | one part more than there are separators, no part holds a separator, and joining the parts gives the text back |
| Generator.SplitWithout | IoTHighPerf.ActivityGenerator/Services/ReactiveActivityGenerator.cs:147 | text without the separator is a single part |
| Generator.SplitAcross | IoTHighPerf.ActivityGenerator/Services/ReactiveActivityGenerator.cs:147 | splitting at a separator splits the two sides independently |
| Generator.ParseAuditEntry | IoTHighPerf.ActivityGenerator/Services/ReactiveActivityGenerator.cs:142-161 | an entry is parsed only from text with at least three `\|`; its timestamp formats back to the first field, and its type, device and data hold no `\|` |
| Generator.ParseNeedsFourFields | IoTHighPerf.ActivityGenerator/Services/ReactiveActivityGenerator.cs:146-148 | text with fewer than three `\|` parses to nothing |
| Generator.TimestampHasNoSeparator | IoTHighPerf.ActivityGenerator/Services/ReactiveActivityGenerator.cs:151 | a formatted timestamp holds no `\|` |
| Generator.ParseAuditLine | IoTHighPerf.ActivityGenerator/Services/ReactiveActivityGenerator.cs:142-161 | a line `timestamp\|type\|device\|data` parses to that entry, with the data cut at its first `\|` |
| Generator.ParsedLineStartsWithFields | IoTHighPerf.ActivityGenerator/Services/ReactiveActivityGenerator.cs:147-155 | whatever parses, the text begins with the entry's four fields joined by `\|` |
| Generator.JoinPrefix | IoTHighPerf.ActivityGenerator/Services/ReactiveActivityGenerator.cs:147-155 | the first four parts joined are a prefix of all the parts joined |
| Generator.Forwarded | IoTHighPerf.ActivityGenerator/Services/ReactiveActivityGenerator.cs:127-131 | never more entries forwarded than messages received |
| Generator.ForwardedParsed | IoTHighPerf.ActivityGenerator/Services/ReactiveActivityGenerator.cs:127-131 | every forwarded entry is the parse of some message, and when all messages parse all are forwarded |
| Generator.ForwardedAppend | IoTHighPerf.ActivityGenerator/Services/ReactiveActivityGenerator.cs:125-131 | one more message forwards what it parses to, after the earlier entries |
| Generator.ChunksAreBatching | IoTHighPerf.ActivityGenerator/Services/ReactiveActivityGenerator.cs:51-52 | grouping by `MaxBatchSize` gives non-empty batches of at most 10000 entries that flatten to the input, all but the last full |
| Generator.FileStage | IoTHighPerf.ActivityGenerator/Services/ReactiveActivityGenerator.cs:59-78 | the file stage of one batch: read the counter file (a device fault on an existing file raises an I/O error), then publish the batch with the state read |
| Generator.RunBatches | IoTHighPerf.ActivityGenerator/Services/ReactiveActivityGenerator.cs:59-91 | the batches through the file stage and the log stage in order, the first error ending the run |
| Generator.RunAfterLogged | IoTHighPerf.ActivityGenerator/Services/ReactiveActivityGenerator.cs:80-91 | names already logged only prefix what a run logs and change nothing else |
| Generator.StageKeepsFinalFiles | IoTHighPerf.ActivityGenerator/Services/ReactiveActivityGenerator.cs:59-78 | the file stage never changes an existing `.BIN` file in the output directory |
| Generator.StagePublishesBatch | IoTHighPerf.ActivityGenerator/Services/ReactiveActivityGenerator.cs:64-65 | a successful file stage on a non-empty batch publishes it under a new `.BIN` name |
| Generator.StageAdvancesCounter | IoTHighPerf.ActivityGenerator/Services/ReactiveActivityGenerator.cs:64-65 | a successful file stage increments the stored counter by one |
| Generator.FileStageSuccess | IoTHighPerf.ActivityGenerator/Services/ReactiveActivityGenerator.cs:64-65 | reading the counter and publishing gives a fresh final file with the batch's bytes and the incremented counter |
| Generator.FileStageKeepsFinalFile | IoTHighPerf.ActivityGenerator/Services/ReactiveActivityGenerator.cs:59-78 | an existing final file keeps its content through a file stage |
| Generator.RunKeepsFinalFile | IoTHighPerf.ActivityGenerator/Services/ReactiveActivityGenerator.cs:59-91 | an existing final file keeps its content through a whole run |
| Generator.PublishedAsCons | IoTHighPerf.ActivityGenerator/Services/ReactiveActivityGenerator.cs:59-91 | a batch published in front of a published sequence extends it |
| Generator.PublishedAsEarlier | IoTHighPerf.ActivityGenerator/Services/ReactiveActivityGenerator.cs:59-91 | names published since a middle state whose final paths were free before it count as published since before |
| Generator.StagePublished | IoTHighPerf.ActivityGenerator/Services/ReactiveActivityGenerator.cs:64-65 | one successful stage of a non-empty batch publishes it under a `.BIN` name that was free |
| Generator.DistinctCons | IoTHighPerf.ActivityGenerator/Services/ReactiveActivityGenerator.cs:59-91 | a name whose final file exists where none of the later names' files does is distinct from them |
| Generator.FreeBeforeStage | IoTHighPerf.ActivityGenerator/Services/ReactiveActivityGenerator.cs:59-78 | a final path free after a stage was free before it |
| Generator.RunPublishesEveryBatch | IoTHighPerf.ActivityGenerator/Services/ReactiveActivityGenerator.cs:59-91 | a successful run gives every batch, in order, its own new `.BIN` file holding its records, and logs its name |
| Generator.RunNamesDistinct | IoTHighPerf.ActivityGenerator/Services/ReactiveActivityGenerator.cs:59-91 | the names a successful run logs are pairwise distinct |
| Generator.RunAdvancesCounter | IoTHighPerf.ActivityGenerator/Services/ReactiveActivityGenerator.cs:64-75 | k batches processed from counter c leave counter c+k |
| Generator.GeneratorRunPublishes | IoTHighPerf.ActivityGenerator/Services/ReactiveActivityGenerator.cs:51-91 | for any batching of the forwarded entries, a successful run publishes every batch under distinct names and advances the counter by the number of batches |
| Generator.ReactiveActivityGenerator.constructor | IoTHighPerf.ActivityGenerator/Services/ReactiveActivityGenerator.cs:22-34 | the generator starts with an empty pipeline and nothing logged |
| Generator.ReactiveActivityGenerator.HandleMessage | IoTHighPerf.ActivityGenerator/Services/ReactiveActivityGenerator.cs:125-131 | a message that parses is appended to the pipeline, and one that does not is dropped |
| Generator.ReactiveActivityGenerator.GenerateFile | IoTHighPerf.ActivityGenerator/Services/ReactiveActivityGenerator.cs:59-78 | reads the counter and publishes the batch as the file stage describes, and any error is passed on |
| Generator.ReactiveActivityGenerator.LogFile | IoTHighPerf.ActivityGenerator/Services/ReactiveActivityGenerator.cs:80-91 | only a non-empty name is logged |
| Generator.ReactiveActivityGenerator.ProcessBatches | IoTHighPerf.ActivityGenerator/Services/ReactiveActivityGenerator.cs:51-91 | the batches go through the file and log stages in order. The first error ends the run and is passed on. The result is `RunBatches` |
| AuditLog.Serialized | IoTHighPerf.Infrastructure/Audit/FasterAuditLogger.cs:94-124 | what `SerializeAuditEntry` returns: the entry bytes in an array sized by UTF-16 lengths, or the exception the encoder or the second separator raises |
| AuditLog.TimestampBuffer | IoTHighPerf.Infrastructure/Audit/FasterAuditLogger.cs:97-98 | 27 characters: the 23 of `yyyy-MM-ddTHH:mm:ss.fff`, then four NULs |
| AuditLog.TimestampBufferAscii | IoTHighPerf.Infrastructure/Audit/FasterAuditLogger.cs:97-98 | the buffer is ASCII and holds no `\|` |
| AuditLog.SerializedSucceedsIffAscii | IoTHighPerf.Infrastructure/Audit/FasterAuditLogger.cs:101-121 | an entry is produced exactly when type and data are ASCII, and non-ASCII data after ASCII type makes the encoder raise |
| AuditLog.SerializedText | IoTHighPerf.Infrastructure/Audit/FasterAuditLogger.cs:101-123 | for ASCII input the array is exactly the UTF-8 of buffer `\|` type `\|` data, with no byte left over |
| AuditLog.SerializedLayout | IoTHighPerf.Infrastructure/Audit/FasterAuditLogger.cs:103-121 | length 29 plus the type's and the data's lengths, then the timestamp, four zero bytes, `\|` at 27, the type, `\|`, the data |
| AuditLog.SerializedPipes | IoTHighPerf.Infrastructure/Audit/FasterAuditLogger.cs:112-118 | with no `\|` in type or data, `\|` bytes appear exactly at index 27 and at index 28 plus the type's length |
| AuditLog.SerializedNeverParsed | IoTHighPerf.Infrastructure/Audit/FasterAuditLogger.cs:112-118 | such an entry has three fields, so the generator's parser rejects it |
| AuditLog.CopyInto | IoTHighPerf.Infrastructure/Audit/FasterAuditLogger.cs:109 | bytes that fit are written right after the filled prefix |
| AuditLog.OverwriteFilled | IoTHighPerf.Infrastructure/Audit/FasterAuditLogger.cs:115 | bytes encoded right after the filled prefix of the zeroed array extend that prefix |
| AuditLog.SetByte | IoTHighPerf.Infrastructure/Audit/FasterAuditLogger.cs:112 | one byte written after the filled prefix |
| AuditLog.SerializeAuditEntry | IoTHighPerf.Infrastructure/Audit/FasterAuditLogger.cs:94-124 | the step-by-step filling gives exactly `Serialized`: the entry, or the exception the code raises |
| AuditLog.AsciiAppend | IoTHighPerf.Infrastructure/Audit/FasterAuditLogger.cs:134 | a concatenation is ASCII exactly when both parts are |
| AuditLog.DownloadDataAscii | IoTHighPerf.Infrastructure/Audit/FasterAuditLogger.cs:134 | `deviceId:fileId:offset:size` is ASCII exactly when the device and file ids are |
| AuditLog.LogManifestRequest | IoTHighPerf.Infrastructure/Audit/FasterAuditLogger.cs:126-130 | a MANIFEST entry with the device id as data, produced exactly for an ASCII id |
| AuditLog.LogDownload | IoTHighPerf.Infrastructure/Audit/FasterAuditLogger.cs:132-136 | a DOWNLOAD entry with data `deviceId:fileId:offset:size`, produced exactly for ASCII ids |
| AuditLog.LogTimeSync | IoTHighPerf.Infrastructure/Audit/FasterAuditLogger.cs:138-142 | a TIME entry with the device id as data, produced exactly for an ASCII id |
| AuditLog.LogConfirmation | IoTHighPerf.Infrastructure/Audit/FasterAuditLogger.cs:144-148 | a CONFIRM entry with data `deviceId:fileId`, produced exactly for ASCII ids |
| PubSub.ScanRecords | IoTHighPerf.ActivityGenerator/PubSub/FasterSubscriber.cs:32-49 | the inner loop: each record in order goes through one `Read` step |
| PubSub.Subscription | IoTHighPerf.ActivityGenerator/PubSub/FasterSubscriber.cs:27-68 | the outer loop: one scan per pass from the cursor; cancellation ends it normally, a log error ends it with that error |
| PubSub.Scan | IoTHighPerf.ActivityGenerator/PubSub/FasterSubscriber.cs:31 | a scan yields only records at or after its start address |
| PubSub.ScanRecordsDelivers | IoTHighPerf.ActivityGenerator/PubSub/FasterSubscriber.cs:32-49 | one handler call per non-null record, in scan order, and the cursor ends at `address + entryLength` of the last record |
| PubSub.FailuresSwallowed | IoTHighPerf.ActivityGenerator/PubSub/FasterSubscriber.cs:36-46 | handler failures change neither the calls made nor the cursor |
| PubSub.ScanAbove | IoTHighPerf.ActivityGenerator/PubSub/FasterSubscriber.cs:31 | a scan keeps any lower bound its log has |
| PubSub.ScanOrdered | IoTHighPerf.ActivityGenerator/PubSub/FasterSubscriber.cs:31 | a scan of an ordered log is ordered |
| PubSub.OrderedTail | IoTHighPerf.ActivityGenerator/PubSub/FasterSubscriber.cs:31 | the rest of an ordered log is ordered and starts past the first record's end |
| PubSub.OrderedCons | IoTHighPerf.ActivityGenerator/PubSub/FasterSubscriber.cs:31 | a record in front of an ordered log past its end keeps it ordered |
| PubSub.ScanKeepsBelow | IoTHighPerf.ActivityGenerator/PubSub/FasterSubscriber.cs:32-49 | every delivered address stays below the cursor, and the cursor never goes back |
| PubSub.SubscriptionDeliversOnce | IoTHighPerf.ActivityGenerator/PubSub/FasterSubscriber.cs:29-57 | across passes, each rescan starts at the cursor, so delivered addresses stay below it |
| PubSub.FromStartDeliversOnce | IoTHighPerf.ActivityGenerator/PubSub/FasterSubscriber.cs:27-57 | from cursor 0, handler calls come at strictly increasing addresses: no record is delivered twice |
| PubSub.ReadScan | IoTHighPerf.ActivityGenerator/PubSub/FasterSubscriber.cs:32-49 | the inner loop computes exactly `ScanRecords` |
| PubSub.SubscribeAsync | IoTHighPerf.ActivityGenerator/PubSub/FasterSubscriber.cs:19-69 | starting at address 0, the nested loops compute `Subscription`: cancellation ends normally, a log error is passed on |
| ApiTime.Build | IoTHighPerf.Api/Program.cs:128-147 | the three writes on values: the bytes and length `BuildJsonResponse` leaves, or the exception it raises |
| ApiTime.ResponseIsText | IoTHighPerf.Api/Program.cs:42-43 | the prefix, the digits' UTF-8 and the suffix are the UTF-8 of the whole JSON text |
| ApiTime.JsonResponseText | IoTHighPerf.Api/Program.cs:133-146 | the response is the UTF-8 of `{"time":` + ticks + `}`, its length is 8 + the digit count + 1, at most 29, and its middle parses back to the ticks |
| ApiTime.BuildWhenItFits | IoTHighPerf.Api/Program.cs:128-147 | with room, the length is the response's and the buffer holds it at the front, every later byte untouched |
| ApiTime.BuildAlwaysFits | IoTHighPerf.Api/Program.cs:35 | any tick count fits the 256-byte buffer |
| ApiTime.BuildJsonResponse | IoTHighPerf.Api/Program.cs:128-147 | the three copies leave exactly what `Build` describes, length or exception |
| ApiTime.BuildJsonResponseOptimise | IoTHighPerf.Api/Program.cs:257-271 | the same bytes and length as `BuildJsonResponse` |
| ApiTime.Respond | IoTHighPerf.Api/Program.cs:94-99 | the copy handed to the request is exactly the response |
| ZeroMQ.BuildJsonResponse | IoTHighPerf.Infrastructure/ZeroMQ/TimeServer.cs:102-112 | a fresh array of prefix, decimal value and suffix, in order, with the prefix and suffix arrays unchanged |
| ZeroMQ.ValueResponseText | IoTHighPerf.Infrastructure/ZeroMQ/TimeServer.cs:25-26 | with the static arrays the response is the UTF-8 of `{"Value":` + value + `}` |
| ZeroMQ.ValueResponseReadsBack | IoTHighPerf.Infrastructure/ZeroMQ/TimeServer.cs:104-108 | the length is 9 + the digit count + 1, and the middle parses back to the value |
| ZeroMQ.Respond | IoTHighPerf.Infrastructure/ZeroMQ/TimeServer.cs:89-90 | the response for the static prefix and suffix |
| CoreModels.IsValid | IoTHighPerf.Core/Models/ChunkRequest.cs:7 | a request is valid when its size is at most `MaxChunkSize` (4096) |
| CoreModels.ChunkBoundary | IoTHighPerf.Core/Models/ChunkRequest.cs:7 | size 4096 is valid and 4097 is not |
| CoreModels.NoLowerBound | IoTHighPerf.Core/Models/ChunkRequest.cs:7 | zero and negative sizes are valid |
| CoreModels.ValidityIgnoresFileAndOffset | IoTHighPerf.Core/Models/ChunkRequest.cs:7 | requests of the same size are valid alike, whatever their file and offset |

## Left out

- The TPL Dataflow wiring: bounded capacities, the one-minute timer that
  triggers a batch, `StopAsync` and `DrainPipelineAsync`.
  - Batching is any split into non-empty batches of at most `MaxBatchSize`
    entries (`IsBatching`).
  - The file stage runs with parallelism 1, one batch after another.
  - The stop path leaves no model, because it is concurrency inside the
    library.
- The audit logger's channel, its background processor, the periodic commit
  and `Dispose`. The entry builders return the entry instead of writing it
  to the channel.
- FasterLog itself. `Scan` is a filter over a given record sequence (a
  pass's `log`). `WaitForCommitAsync` and the pause are folded into how a
  pass ends (`PassEnd`), so the log can fail only there.
- The text and formatting of log messages. Two log calls are kept where they
  record something: the log stage's `LogInformation` of a file name is the
  `logged` list (`Generator.LogName`), and the subscriber's `LogError` for a
  failed handler is the `errors` list (`PubSub.Read`).
- PubSub.LogRecord: the subscriber names the iterator's outputs `entry,
  address, entryLength`, while FASTER's `GetNext(out byte[] entry, out int
  entryLength, out long currentAddress)` fills the second with the length and
  the third with the address. The model takes the names at face value and
  gives each record its own log address and length.
- PubSub.ReadScan: `address + entryLength` is computed in unbounded
  integers. The 64-bit overflow of that sum is not modelled.
- The clock, the temporary file name and the culture:
  - `DateTime.UtcNow` is a parameter (`now`, `today`);
  - one `today` serves a whole generator run;
  - formatting is culture-invariant.
- Counters.DecodeCounterFile: `DateOnly.TryParse` accepts only `yyyy-MM-dd`
  text here. The real parser is culture-sensitive and also accepts other
  date layouts.
- Counters.CounterManager: I/O faults are modelled only on the counter
  store's device (`deviceFault`). The temporary file of `SaveCounterAsync`
  and its move are a single step.
- ActivityFiles.FileSystem: directories are not modelled. `Path.Combine`
  joins with `/`. The file system raises only on a missing source or a
  taken destination.
- ActivityFiles.ActivityFileWriter.WriteActivityFile: the records are
  buffered and land in the file in one step, so a write cut short by an I/O
  error is not modelled.
- Strings are sequences of Unicode scalar values, so lone UTF-16 surrogates
  cannot be expressed. UTF-16 lengths are computed where the code relies on
  them: the serializer's array size, `PadRight`, and `Encoding.ASCII`, which
  writes one `?` per unit of a surrogate pair.
- Buffers.GetBytes: when the text does not fit, the model writes the encoded
  bytes that fit, cut at a byte, and then raises. The real encoder stops at a
  whole character and might not leave those bytes. Only the API's ASCII digits
  reach this case in an array that is kept; the serializer drops its array.
- ApiTime.BuildJsonResponseOptimise takes a `Span<byte>` in the code. Here
  it takes an array, with the same writes.
- The API's batch loop and clock (`UpdateTimeAsync`,
  `ProcessTimeRequestsBatch` beyond the per-request response,
  `GetBatchedTimeAsync`), `TimeServiceInit2` and `TimeService`. They are
  timers, channels and the system clock.
- The TimeServer's sockets, workers, start and stop; Kestrel, the endpoint
  lambdas and dependency injection. These are host and network plumbing.
- `FileManager` is a stub with no behaviour to model. The k6 load scripts
  make no functional assertions.
- Counters.DecodeEncodeCounterFile: the last file name comes back only up to
  its first line break. The full round trip is `CounterRoundTrip`, for names
  without breaks.
- Generator.RunAdvancesCounter: counter c+k is stated only while c+k stays
  at most `int.MaxValue`. Above that, `Increment` wraps, and the next name
  fails (`Base36WrappedCounter`).
