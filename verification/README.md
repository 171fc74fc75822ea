# JAV toolbox ingest core, in Dafny

This project models the two pieces of the JAV toolbox API that decide what
happens to a video file:

- **The ingest service** (`JAVProcessorService`). It decides whether a
  file name qualifies for processing. Hash-named downloads, the browser's
  `videoplayback` placeholder and blacklisted names are rejected. It
  de-duplicates a file seen on disk against the stored inodes, file rows and
  titles. A new file is attached to the stored Inode and Title when they
  exist and to fresh ones otherwise. The service announces work on the
  message bus: `ProcessFileMessage` for every handled file, and
  `CheckVideoMessage` for every file of a title whose inode is unchecked.
- **The `CheckVideoMessage` handler**. It skips the health check for a
  file already checked. Otherwise it runs the health check and stores the verdict.
  Then it fans out thumbnail and hash work iff the file is checked and
  consistent. While the health check runs, a callback sees every output chunk.
  When a chunk arrives 30 seconds or more after the timer was last reset,
  the callback pings the database connection and resets the timer. It either
  forwards the chunk to the message's own callback or logs it, turning
  ffmpeg's `time=HH:MM:SS.cc bitrate` marker into a millisecond mark.

## Modules and files

- `wrappers.dfy` (`Wrappers`): the `Option` type.
- `php_strings.dfy` (`PhpStrings`): the PHP built-ins the core relies on.
  These are `trim`, `pathinfo(…, PATHINFO_FILENAME)`, `ctype_xdigit`,
  `strpos` and `stripos`.
- `entities.dfy` (`Entities`): Inode, Title, JavFile, the file information
  seen on disk, the name matcher's result, and the bus messages.
- `persistence.dfy` (`Persistence`): `Backend`, one object standing for
  the Doctrine entity manager, its connection and the Messenger bus.
  - Inodes are a map keyed by inode number.
  - Titles are a map keyed by catalog number.
  - File rows are a sequence whose index is the row id, so ids are
    assigned in insertion order.
  - The bus is an append-only sequence of messages.
  - Each flush records how many messages had been sent at that moment.
    This is how "stored before announced" is stated.
  - `Valid()` keeps ids equal to keys and row positions, and keeps every
    row's inode and title present.
- `jav_processor_service.dfy` (`JavProcessorService`): `shouldProcessFile`,
  `fileExists`, `preProcessFile`, `processFile`, `checkVideoConsistency`
  and `checkJAVFilesConsistency`.
- `progress_parser.dfy` (`ProgressParser`): the `time=` pattern with PCRE's
  leftmost, backtracking semantics, and the mark computed from its groups.
- `check_video_message_handler.dfy` (`CheckVideoMessageHandler`): the
  keepalive timer, the per-chunk callback and `__invoke`.

The health check is represented by what it prints and how it ends. Its
output is a sequence of chunks, each stamped with the wall-clock second
at which it arrived. It ends with a verdict (checked, consistent) or a
failure. The name matcher is a function parameter of `PreProcessFile`.

## Model

| member | source | states |
|---|---|---|
| PhpStrings.Trim | app/src/Service/JAVProcessorService.php:236 | trim() returns the slice of its argument left after removing default trim characters from both ends; what was removed is all trim characters and the result neither starts nor ends with one |
| PhpStrings.PathinfoFilename | app/src/Service/JAVProcessorService.php:236 | the result is a prefix of the base name; it is the whole base name iff that has no dot, otherwise it stops at the last dot |
| PhpStrings.PathinfoFilenameOfSimpleName | app/src/Service/JAVProcessorService.php:236 | for `name.ext` without slashes or further dots, the extension-less name is `name` |
| PhpStrings.TrimUntrimmed | app/src/Service/JAVProcessorService.php:236 | trim() leaves a string alone that neither starts nor ends with a trim character |
| PhpStrings.CtypeXdigit | app/src/Service/JAVProcessorService.php:238 | definition: a non-empty string of hexadecimal digits, as `ctype_xdigit` decides; see HexNamedFileIsRejected and DotFileHasEmptyStem |
| PhpStrings.Stripos | app/src/Service/JAVProcessorService.php:244 | stripos() returns the first position where the lower-cased needle occurs in the lower-cased haystack, and none iff it occurs nowhere |
| PhpStrings.Strpos | app/src/MessageHandler/CheckVideoMessageHandler.php:72 | strpos() returns the first position where the needle occurs, and none iff it occurs nowhere |
| Persistence.Backend.Dispatch | app/src/Service/JAVProcessorService.php:117 | a dispatch appends the message to the bus and changes nothing else |
| Persistence.Backend.Flush | app/src/Service/JAVProcessorService.php:219 | a flush records how many messages had been dispatched before it and changes nothing else |
| Persistence.Backend.Ping | app/src/MessageHandler/CheckVideoMessageHandler.php:63 | a ping counts one more ping of the connection and changes nothing else |
| Persistence.Backend.MergeInode | app/src/Service/JAVProcessorService.php:197-201 | the new Inode is stored under its own id, the only change, and the store invariant is preserved |
| Persistence.Backend.MergeTitle | app/src/Service/JAVProcessorService.php:213-214 | the Title is stored under its own catalog number, the only change, and the store invariant is preserved |
| Persistence.Backend.InsertFile | app/src/Service/JAVProcessorService.php:218 | the new row is appended with the next free id as its id, the only change, and the store invariant is preserved |
| Persistence.Backend.PersistFile | app/src/MessageHandler/CheckVideoMessageHandler.php:90 | the row with the record's id is replaced by the record, the only change, and the store invariant is preserved |
| Persistence.FirstWithPath | app/src/Service/JAVProcessorService.php:157 | the row found for a path is the first row with that path, and none iff no row has it |
| JavProcessorService.Qualifies | app/src/Service/JAVProcessorService.php:234-251 | definition: the trimmed stem is neither a hash nor `videoplayback`, and no blacklist entry occurs in the name in any case; ShouldProcessFile is proved against it and the lemmas below characterise it |
| JavProcessorService.ShouldProcessFile | app/src/Service/JAVProcessorService.php:234-251 | accepts iff the trimmed stem is neither non-empty all-hex nor `videoplayback` and no blacklist entry occurs case-insensitively in the whole name; acceptance logs nothing, each rejection logs exactly one warning, the artifact warning taking precedence |
| JavProcessorService.StemOfSimpleName | app/src/Service/JAVProcessorService.php:236 | the trimmed extension-less name of `name.ext`, with no directory, no further dot and no padding, is `name` |
| JavProcessorService.HexNamedFileIsRejected | app/src/Service/JAVProcessorService.php:236-240 | a `name.ext` with a non-empty all-hex `name` is rejected whatever the blacklist |
| JavProcessorService.PlaceholderIsRejected | app/src/Service/JAVProcessorService.php:236-240 | `videoplayback` with any extension is rejected whatever the blacklist |
| JavProcessorService.DotFileHasEmptyStem | app/src/Service/JAVProcessorService.php:236-238 | a name that is only a dot and an extension has an empty stem, which the hex test does not reject because `ctype_xdigit('')` is false |
| JavProcessorService.ShortNameIsNotBlacklisted | app/src/Service/JAVProcessorService.php:243-247 | a name shorter than every blacklist entry contains none of them |
| JavProcessorService.SimpleNameQualifies | app/src/Service/JAVProcessorService.php:234-251 | a plain `name.ext` whose name is neither all hex nor `videoplayback`, and too short to hold any blacklist entry, qualifies |
| JavProcessorService.CatalogNameQualifies | app/src/Service/JAVProcessorService.php:234-251 | `ABC-123.mkv` qualifies under the shipped blacklist |
| JavProcessorService.BlacklistedInAnyCase | app/src/Service/JAVProcessorService.php:243-247 | an occurrence of a blacklist entry in the name, compared after lower-casing both, disqualifies the file |
| JavProcessorService.FileExists | app/src/Service/JAVProcessorService.php:154-161 | a file exists iff its inode is known and some row has its path |
| JavProcessorService.ProcessFile | app/src/Service/JAVProcessorService.php:107-118 | appends exactly one ProcessFileMessage carrying the row's id and changes nothing else |
| JavProcessorService.CheckVideoConsistency | app/src/Service/JAVProcessorService.php:140-152 | appends exactly one CheckVideoMessage for the row's id and changes nothing else |
| JavProcessorService.PreProcessFile | app/src/Service/JAVProcessorService.php:168-232 | a known file changes no repository and re-announces its first row once; a failed match or a disqualified name changes nothing; otherwise exactly one row is stored, with a fresh Inode carrying the observed size only for an unknown inode and the extracted Title only for an unknown catalog number, then a flush, then exactly one ProcessFileMessage, after which the file exists; the store invariant is preserved |
| JavProcessorService.FindOrCreateInode | app/src/Service/JAVProcessorService.php:189-201 | after the lookup the file's inode is stored; an existing Inode is kept as it is, otherwise a new one with the observed size is added and nothing else changes; the store invariant is preserved |
| JavProcessorService.FindOrAddTitle | app/src/Service/JAVProcessorService.php:203-216 | after the lookup the extracted catalog number is stored; an existing Title is kept as it is, otherwise the extracted Title is merged and nothing else changes; the store invariant is preserved |
| JavProcessorService.StoreNewFile | app/src/Service/JAVProcessorService.php:188-221 | the new row has the file's path, inode and catalog number; an existing Inode or Title is reused unchanged; the flush precedes the one ProcessFileMessage |
| JavProcessorService.ReingestIsRecognised | app/src/Service/JAVProcessorService.php:170-175 | ingesting a file that was just stored or recognised again is recognised as known |
| JavProcessorService.ConsistencyChecks | app/src/Service/JAVProcessorService.php:129-138 | definition: the CheckVideoMessages for the title's rows whose inode is unchecked, in row order; see ConsistencyChecksInRowOrder and ConsistencyChecksSelectUnchecked |
| JavProcessorService.ConsistencyChecksInRowOrder | app/src/Service/JAVProcessorService.php:129-138 | every check requested is a CheckVideoMessage without callback for a row of the table, and the rows come in strictly increasing order, so none is requested twice |
| JavProcessorService.ConsistencyChecksSelectUnchecked | app/src/Service/JAVProcessorService.php:129-138 | a row is requested for checking iff it belongs to the title and its inode is unchecked |
| JavProcessorService.CheckJavFilesConsistency | app/src/Service/JAVProcessorService.php:129-138 | the loop appends exactly those checks to the bus and nothing else |
| ProgressParser.MatchAt | app/src/MessageHandler/CheckVideoMessageHandler.php:74 | a match at a position starts with `time=` and has group lengths the pattern admits |
| ProgressParser.MatchIsLaidOut | app/src/MessageHandler/CheckVideoMessageHandler.php:74 | whatever matches at a position is spelled out there: `time=`, the returned groups with the pattern's separators, one whitespace character and `bitrate` |
| ProgressParser.MatchAtLaidOut | app/src/MessageHandler/CheckVideoMessageHandler.php:74 | conversely, well-formed groups spelled out at a position are exactly what matches there |
| ProgressParser.SearchFrom | app/src/MessageHandler/CheckVideoMessageHandler.php:74 | the match found has group lengths the pattern admits |
| ProgressParser.SearchFromIsLeftmost | app/src/MessageHandler/CheckVideoMessageHandler.php:74 | preg_match returns the match at the leftmost position where the pattern matches, and no match iff it matches at no position |
| ProgressParser.DigitRun | app/src/MessageHandler/CheckVideoMessageHandler.php:74 | the fraction group takes the maximal run of at most three digits |
| ProgressParser.MatchAtRender | app/src/MessageHandler/CheckVideoMessageHandler.php:74 | any well-formed marker is matched back to its own groups wherever it stands in a line |
| ProgressParser.FirstMarkerIsFound | app/src/MessageHandler/CheckVideoMessageHandler.php:74 | when a line's first `time=` starts a well-formed marker, that marker is what preg_match finds |
| ProgressParser.ProgressMarkOfMarker | app/src/MessageHandler/CheckVideoMessageHandler.php:74-75 | such a line yields the mark of that marker |
| ProgressParser.DigitsValue | app/src/MessageHandler/CheckVideoMessageHandler.php:75 | definition: PHP's conversion of a digit string to an integer, the empty string giving 0 |
| ProgressParser.Mark | app/src/MessageHandler/CheckVideoMessageHandler.php:75 | definition: the formula of line 75; see TwoDigitFractionIsMillis, MarkMonotone and MarkOrdersTimestamps |
| ProgressParser.FieldsMark | app/src/MessageHandler/CheckVideoMessageHandler.php:75 | definition: the mark of the four captured groups |
| ProgressParser.ProgressMark | app/src/MessageHandler/CheckVideoMessageHandler.php:74-75 | definition: the mark of the match preg_match finds; see ProgressMarkIsLeftmostMatch |
| ProgressParser.ProgressMarkIsLeftmostMatch | app/src/MessageHandler/CheckVideoMessageHandler.php:74-75 | a chunk's mark is that of its leftmost match, and there is none iff the pattern matches nowhere in it |
| ProgressParser.TwoDigitFractionIsMillis | app/src/MessageHandler/CheckVideoMessageHandler.php:75 | with ffmpeg's two-digit fraction the mark is the elapsed time in milliseconds |
| ProgressParser.MarkMonotone | app/src/MessageHandler/CheckVideoMessageHandler.php:75 | the mark does not decrease when any field grows |
| ProgressParser.MarkOrdersTimestamps | app/src/MessageHandler/CheckVideoMessageHandler.php:75 | within ffmpeg's field ranges a later time stamp gives a strictly larger mark |
| CheckVideoMessageHandler.Keepalive | app/src/MessageHandler/CheckVideoMessageHandler.php:54-66 | definition: the timer's start and its firings over the chunks; see KeepaliveSpacing and KeepaliveKeepsUp |
| CheckVideoMessageHandler.KeepaliveSpacing | app/src/MessageHandler/CheckVideoMessageHandler.php:59-66 | the timer fires only at chunk arrivals, at most once per chunk; the first firing is at least 30 s after the start and consecutive firings at least 30 s apart; the timer's start is always its last firing |
| CheckVideoMessageHandler.KeepaliveKeepsUp | app/src/MessageHandler/CheckVideoMessageHandler.php:61-65 | with chunks at most `gap` seconds apart, each firing advances the start by at most 29 + gap seconds, and the last chunk is less than 30 s after the final start |
| CheckVideoMessageHandler.KeepaliveFiresTwiceIn90Seconds | app/src/MessageHandler/CheckVideoMessageHandler.php:54-66 | a check that prints at least every 15 s and lasts 90 s pings at least twice |
| CheckVideoMessageHandler.LoggedReport | app/src/MessageHandler/CheckVideoMessageHandler.php:71-86 | definition: a chunk with ` time=` gives its progress mark, or nothing when the pattern does not match; any other chunk is logged verbatim |
| CheckVideoMessageHandler.ChunkDiagnostics | app/src/MessageHandler/CheckVideoMessageHandler.php:59-88 | definition: the keepalive notice when the timer fires, then the chunk forwarded to the message's callback or else its logger report |
| CheckVideoMessageHandler.OutputDiagnostics | app/src/MessageHandler/CheckVideoMessageHandler.php:56-88 | definition: the reports of each chunk, in order, with the timer as Keepalive leaves it after the chunks before; see CallbackReceivesEveryChunk and LoggerLogsEveryChunk |
| CheckVideoMessageHandler.CallbackReceivesEveryChunk | app/src/MessageHandler/CheckVideoMessageHandler.php:68-70 | with a callback on the message, the reports other than keepalive notices are every chunk forwarded in order, and nothing is parsed or logged |
| CheckVideoMessageHandler.LoggerReceivesChunks | app/src/MessageHandler/CheckVideoMessageHandler.php:71-86 | without a callback nothing is forwarded; a verbatim log line is a chunk without ` time=`, and a progress mark comes from a chunk with ` time=` whose marker yields it |
| CheckVideoMessageHandler.LoggedAll | app/src/MessageHandler/CheckVideoMessageHandler.php:71-86 | definition: each chunk's logger report, in chunk order |
| CheckVideoMessageHandler.LoggerLogsEveryChunk | app/src/MessageHandler/CheckVideoMessageHandler.php:71-86 | without a callback, the reports other than keepalive notices are exactly every chunk's logger report, in chunk order |
| CheckVideoMessageHandler.UnmarkedChunkIsLoggedVerbatim | app/src/MessageHandler/CheckVideoMessageHandler.php:84-85 | every chunk without ` time=` reaches the logger verbatim |
| CheckVideoMessageHandler.OnOutput | app/src/MessageHandler/CheckVideoMessageHandler.php:59-88 | when 30 s have passed the callback pings once, dispatches one FooMessage and restarts the timer at the chunk's time, otherwise it changes nothing; then it reports the chunk |
| CheckVideoMessageHandler.FeedOutput | app/src/MessageHandler/CheckVideoMessageHandler.php:56-88 | feeding the health check's output through the callback pings once and dispatches one FooMessage per keepalive firing, and reports exactly the per-chunk diagnostics of the whole output |
| CheckVideoMessageHandler.DispatchFollowUps | app/src/MessageHandler/CheckVideoMessageHandler.php:95-99 | appends the thumbnail, XXHASH and MD5 messages for the file, in that order, and nothing else |
| CheckVideoMessageHandler.Invoke | app/src/MessageHandler/CheckVideoMessageHandler.php:50-100 | an unknown id changes nothing; a checked file is not probed, stored or flushed; an unchecked one sees one ping and one FooMessage per keepalive firing, and its verdict is stored and flushed before any later message unless the health check throws; the thumbnail, XXHASH and MD5 messages follow, in that order with the file's id, iff the final flags are checked and consistent; the store invariant is preserved |
| CheckVideoMessageHandler.Redeliver | app/src/MessageHandler/CheckVideoMessageHandler.php:95-99 | redelivering the message for a file whose check succeeded does not probe again and dispatches the three follow-up messages again |

## Left out

- Logging is left out except where it is the observable result. Modelled:
  the two shouldProcessFile warnings, and the handler's keepalive,
  progress, verbatim and forwarded reports. Other log lines are not
  modelled.
- CheckVideoMessageHandler.Invoke: the progress percentage on lines 77-82
  is not modelled. It is float formatting for the log, dividing by the
  file's length.
- CheckVideoMessageHandler.Invoke: an unknown id makes `find` return
  null, and line 55 then throws. This is modelled as the outcome
  `FileNotFound` with nothing changed.
- CheckVideoMessageHandler.Invoke: both `time()` calls in the callback are
  taken as the chunk's arrival second. The timer can fire only when a
  chunk arrives. During a silence the timer never fires; it fires at the
  first chunk that arrives 30 seconds or more after its last reset. No
  lemma relies on the clock being non-decreasing, but
  KeepaliveFiresTwiceIn90Seconds relies on chunks at least every 15 seconds.
- ProgressParser.ProgressMark: an empty seconds or fraction group counts
  as 0, as PHP 7 converts `''`. Under PHP 8 that arithmetic would throw.
  A one- or three-digit fraction is scaled as centiseconds, exactly as
  line 75 does. Only ffmpeg's two-digit fraction gives milliseconds.
- ProgressParser.SearchFrom: the pattern is matched character by
  character, as PCRE does without the `u` flag. There is no Unicode or
  locale handling of `\d` and `\s`.
- JavProcessorService.CheckVideoConsistency: the `strict` and `force`
  flags go only to a log line, so they are not modelled. Neither is the
  `persist` of a record the entity manager does not hold, because every
  record here is already stored.
- JavProcessorService.PreProcessFile: the name matcher is a parameter.
  `JAVNameMatcherService` is not part of this model. Its failure, an
  exception carrying the file name and the matchers tried, is the
  `NoMatch` result and propagates as `ExtractionFailed`.
- JavProcessorService.PreProcessFile: `findOneByFileInfo` is not part of
  this model. It is taken to return the first row with the same path.
- JavProcessorService.PreProcessFile: Doctrine's `merge`, `persist` and
  `flush` take effect at once on the maps and rows, and a flush is
  recorded as a point in the message sequence. Cascades, identity-map
  copies and database failures are not modelled.
- JavProcessorService.ShouldProcessFile: `basename` is modelled as "after
  the last `/`". PHP's special treatment of trailing slashes and of
  locale-dependent bytes is not modelled.
- `getMetadata` and `filenameContainsID` are not modelled. The first only
  dispatches a metadata message; the second only tests the matcher.
- No operation of this core sets `Inode.checked`, so it only ever enters
  the model through the initial store.
- Concurrent workers racing on the same unchecked file, and timeouts, are
  not modelled. Nothing in the code guards against them.
- The health check's internals (ffmpeg invocation, strict mode, exit
  codes) are not modelled. A run is given as its output chunks and
  verdict.
- The cleanup console command, the file repository (its queries are all
  commented out) and the title form are not modelled.
