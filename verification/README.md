# A verified model of go-dblog's decode, resume and undo pipelines

go-dblog reads the change logs of several databases as events, hands out a checkpoint with each event, and
turns events into compensating operations. This project models the three backends whose logs carry row or
command data (MySQL binlogs, the Redis replication stream, PostgreSQL's `test_decoding` lines) together with
the recovery layer that joins them, and proves what the pieces are for: decoders invert the wire formats,
reopening at a checkpoint loses and repeats nothing, and replaying a recovery plan backwards restores the
store.

Check everything with `dafny verify dfyconfig.toml`.

## How it is laid out

| layer | modules |
|---|---|
| shared | `Bytes`, `Numerals`, `Text`, `Reading`: little-endian and length-encoded integers, bitmaps, Go's 64-bit numerals, string search, cursor loops |
| recovery | `Recovery` (plans and their replay over any store), `Restart` (runs cut short and reopened), `Bags` (tables as multisets) |
| MySQL | `MysqlDecimal`, `MysqlColumns`, `MysqlTableMap`, `MysqlRows`, `MysqlRowsWire`, `MysqlStatusVars` (payloads), `MysqlDecoder` (the stateful decoder), `MysqlColumnsWire` and `MysqlDecoderWire` (type bytes, widths and field order, spelled out), `MysqlResume`, `MysqlUndo`, `MysqlRecovery` |
| Redis | `RedisResp` (parser), `RedisStream` (printer, offline decoder), `RedisLive` (handshake, snapshot, live decoder), `RedisUndo`, `RedisRecovery` |
| PostgreSQL | `PgParser`, `PgText`, `PgStream` (lines), `PgFlashback` (statements under SQL), `PgUndo` |

Code that moves a cursor or changes an object is a method or a class (`MysqlDecoder.BinFileDecoder`,
`RedisResp.Reader`, `RedisStream.Decoder`, `RedisLive.LiveDecoder`, `PgStream.Decoder`) proved equal, step for step and outcome for
outcome, to a function on values; the theorems are about those functions. Where the repository has no writer
(rows, table maps, decimals, status variables, column text), the writer is a specification function and the
decoder is shown to invert it. Type bytes, widths, byte orders and command words are fixed by lemmas that spell
them out and share no table with the decoder. Functions are total: a place where Go would stop at run time is the outcome
`Panic`, and `EOF` is kept apart because the decoder's iterator swallows it.

## What the proofs show about the code

* Events whose images hold no column at all vanish: their rows take no bytes, so the loop over the body never
  sees them (`MysqlRowsWire.RowsSurvive`). An update with only one such bitmap is an error
  (`MysqlRowsWire.PairsSurvive` has every case).
* `Reverse` keeps the order of update pairs. That undoes an update exactly when, by a count on the table before
  the event, each swapped pair finds its row (`Bags.UpdateUndoneExactly`, `MysqlUndo.EventUndone`); before images
  that lie in the table together are enough. An update that moves one row twice need not be undone
  (`MysqlUndo.ChainedChangeNotUndone` is such an event).
* Version 0 and partial updates never flash back, although their event types are listed as updates
  (`MysqlUndo.UnpairedUpdatesNeverReverse`).
* The file decoder checks the checksum of events it skips, the raw decoder does not
  (`MysqlDecoder.SkippedFrameAgreement`). An `io.EOF` met inside an event ends the file iterator silently
  (`MysqlDecoder.FramesAgreement`); table maps whose metadata string or null bitmap overruns are answered with one
  (`MysqlTableMap.EndsSilently`). An event size below the header length stops the file decoder at run time
  and is `UnexpectedEOF` for the raw decoder (`MysqlDecoder.UndersizedEvent`).
* A file written event by event is decoded to those events, whatever descriptions, checksums and table maps come
  into force on the way (`MysqlDecoderWire.LogRoundTrip`).
* A resumed MySQL run marks rows events whose table map lies before the checkpoint and drops their rows; it never
  decodes them with a stale map (`MysqlResume.ResumeRefinesFullRun`).
* A second call of the iterator of the offline Redis and PostgreSQL decoders counts positions from 1 again, and
  so is right only when nothing is left to hand out (`RedisStream.CountedAnew`, `PgStream.CountedAnew`). The live
  Redis decoder keeps its position and goes on.
* `doc/RECOVERY.md:32-33` promises that a plan replayed in reverse checkpoint order rolls a window back. It does
  under conditions, some exact for whole windows and some for single events:
  * MySQL, exact for windows: if every row change in the window has a reverse, the tables are restored if and only
    if each change is undone where it happened (`MysqlUndo.MysqlWindowRollback`), which the count above decides.
  * Redis, exact for windows whose commands ran in the keyspace the plan is replayed in: the replay gets through,
    and then restores the store, if and only if no command increments by -2^63
    (`RedisRecovery.RedisWindowRollback`). A step does not say which keyspace was selected; for a single command
    that changed something, the replay must run where it ran (`RedisRecovery.UndoneInItsKeyspace`).
  * PostgreSQL, exact for single changes, records partial or not (`PgUndo.ChangeUndone`): literals read back, an old
    key covers what changed, left-out columns held defaults, and no row left behind is found too. For windows
    these are enough (`PgUndo.PgWindowRollback`) but not all needed: a row inserted twice into an empty table is
    rolled back although the second insert alone is not (`PgUndo.DoubleInsertRolledBack`). For windows of inserts
    and deletes the condition is exact again: the first insert of each row found no copy of it
    (`PgUndo.InsertsRolledBack`).
* A worker that reopens a MySQL log at a step's checkpoint plans every later step exactly when each changed table
  is mapped again in between; otherwise steps are silently missing (`MysqlRecovery.ReopenedPlan`).
* PostgreSQL array types, `text[]` for one, make a line unreadable: the type ends at the first `]`
  (`PgText.ColumnsRoundTrip`). An old key whose text holds ` new-tuple: ` is cut in the wrong place
  (`PgText.UpdateRoundTrip`), and so is a table name that holds `: ` or a dot, after which the change and its flashback name another
  table (`PgStream.LineRoundTrip`).
* A snapshot in EOF-marker form is skipped too early if the marker occurs in the payload or across its end
  (`RedisLive.MarkedSnapshot`).

## Model

| member | source | states |
|---|---|---|
| Bytes.FixedLengthInt | mysql/common/util.go:42-48 | the byte loop computes the little-endian value in 64 bits, bytes past the eighth being shifted out |
| Bytes.LittleEndianBytes | mysql/common/util.go:42-48 | byte i counts 256^i, written out |
| Bytes.LengthIntRoundTrip | mysql/common/util.go:52-82 | every 64-bit number is read back from its length-encoded form, with the exact size, whatever follows |
| Bytes.LengthIntMarkers | mysql/common/util.go:52-82 | 0xfb is NULL, 0xff itself, and a marker whose bytes are missing stops at run time |
| Bytes.PackedBit | mysql/decode/events/types/E_ROWS_EVENT.go:530-535 | `bitmapBit` reads flag i of a packed bitmap of any length, whatever follows it |
| Numerals.ParseIntOfItoa | redis/decode/events/types/command.go:25-38 | every int64 survives being printed and parsed, as counts of pops and positions do |
| Numerals.ParseIntCases | redis/backend/backend.go:78-81 | one optional sign and digits within 64 bits are read as their number, and any other text is refused |
| Recovery.RecoveryPlanLoop | dblog.go:393-413 | the iterator yields exactly the first steps of the plan, however early the consumer stops |
| Recovery.FilterLoop | dblog.go:324-339 | filtering keeps exactly the events every predicate accepts, in order, up to the first error |
| Recovery.MatchLoop | dblog.go:423-430 | an event matches if and only if no predicate rejects it |
| Recovery.FilterKeeps | dblog.go:324-339 | an event is kept as often as it occurs if every predicate accepts it, and not at all otherwise |
| Recovery.FilterConcat | dblog.go:324-339 | adjoining windows are filtered one by one, so order is kept |
| Recovery.FilterTwice | dblog.go:324-339 | filtering by two lists of predicates is filtering twice, errors included |
| Recovery.PlanIsFlashbacks | dblog.go:374-413 | a plan holds the flashbacks' operations in the same order and ends with the same error |
| Recovery.PlanConcat | dblog.go:393-413 | planning two adjoining windows gives the plan of the whole |
| Recovery.PlanOfWindow | dblog.go:393-413 | over a window read without error, the plan is exactly the steps of its reversible events |
| Recovery.PlanComplete | dblog.go:415-421 | the plan has a step for every event if and only if every event is reversible |
| Recovery.StepsCompensate | dblog.go:239-244 | each step carries source and position of an event it compensates, and each reversible event has its step |
| Recovery.PlanOrdered | dblog.go:239-244 | however a backend reads its positions, the steps of a plan keep the rising order of the events' checkpoints |
| Recovery.FallingIsBackwards | doc/RECOVERY.md:32-33 | only one listing of the steps is in reverse checkpoint order, the reversed one |
| Recovery.ReverseCheckpointOrder | doc/RECOVERY.md:32-33 | replaying the steps sorted into reverse checkpoint order is replaying the plan last step first |
| Recovery.WindowRollback | dblog.go:393-413 | for any store and backend: if single events can be undone, replaying a window's plan in reverse restores the state before it, irreversible no-ops included |
| Recovery.WindowRollbackExactly | dblog.go:393-413 | where single reverses are injective, a window is rolled back if and only if every event in it is undone where it happened |
| Restart.CheckpointRoundTrip | redis/backend/backend.go:70-83 | the checkpoint of an event opens at that event's position |
| Restart.StartsAt | redis/backend/backend.go:70-83 | empty text starts at the beginning; a number must not be negative and must be of this driver or of none; other text is refused |
| Restart.AfterEvent | redis/decode/decoder/decoder.go:48-60 | skipping to an event's position leaves exactly the events after it |
| Restart.RisingOrdered | redis/backend/backend.go:70-83 | the checkpoints of events at rising positions rise as read back from their text |
| Restart.RestartExact | postgres/backend/backend.go:80-93 | any sequence of interruptions and reopenings at the last consumed checkpoint adds up to the uninterrupted run |
| MysqlDecimal.GroupFits | mysql/decode/events/types/E_ROWS_EVENT.go:612-627 | k decimal digits fit compressedBytes[k] bytes with the top bit free |
| MysqlDecimal.WidthsLeast | mysql/decode/events/types/E_ROWS_EVENT.go:612-627 | and no fewer bytes would do, which with the row above fixes every entry of compressedBytes |
| MysqlDecimal.SignInBytes | mysql/decode/events/types/E_ROWS_EVENT.go:629-646 | from zero up the top bit is set over the magnitude, below zero every byte is complemented |
| MysqlDecimal.ComplementNegates | mysql/decode/events/types/E_ROWS_EVENT.go:638-648 | complementing every byte of a positive decimal puts a minus sign before its text and changes nothing else |
| MysqlDecimal.MagnitudeTopBit | mysql/decode/events/types/E_ROWS_EVENT.go:629-640 | no magnitude uses the bit that carries the sign |
| MysqlDecimal.PlainOfEncoded | mysql/decode/events/types/E_ROWS_EVENT.go:629-640 | sign and complement are undone: the sign bit gives the sign and unmasking gives the magnitude's bytes |
| MysqlDecimal.ReadDecimalGroup | mysql/decode/events/types/E_ROWS_EVENT.go:690-696 | one group is read as the big-endian value of its unmasked bytes, and the cursor moves past it |
| MysqlDecimal.DecodeDecimalString | mysql/decode/events/types/E_ROWS_EVENT.go:629-688 | the imperative reader computes the specified text, including the outcome for groups out of range |
| MysqlDecimal.DecimalRoundTrip | mysql/decode/events/types/E_ROWS_EVENT.go:612-696 | for every precision, scale and value in range, the text decoded from the complemented base-10^9 form denotes that value |
| MysqlColumns.KindRoundTrip | mysql/decode/events/types/E_ROWS_EVENT.go:369-606 | for every column encoding, value and suffix, decoding returns the value and exactly its length; dates as the parts they were stored from |
| MysqlColumns.ColumnRoundTrip | mysql/decode/events/types/E_ROWS_EVENT.go:369-528 | the same from the wire type and metadata, packed CHAR types included |
| MysqlColumns.PackedCharLength | mysql/decode/events/types/E_ROWS_EVENT.go:374-384 | every CHAR length up to 1023 is recovered from the type byte it is packed into |
| MysqlColumnsWire.IntegersOnWire | mysql/decode/events/types/E_ROWS_EVENT.go:390-423 | types 0x01, 0x02, 0x09, 0x03 and 0x08 are two's complement in 1, 2, 3, 4 and 8 little-endian bytes |
| MysqlColumnsWire.CountsOnWire | mysql/decode/events/types/E_ROWS_EVENT.go:424-454 | years count from 1900 in a byte, floats and doubles are 4 and 8 bytes of bits, timestamps 4 bytes of seconds and times 3 bytes; zero years stay zero and zero timestamps have no value |
| MysqlColumnsWire.DatesOnWire | mysql/decode/events/types/E_ROWS_EVENT.go:455-463 | dates are 15, 4 and 5 bits of year, month and day |
| MysqlColumnsWire.DatetimesOnWire | mysql/decode/events/types/E_ROWS_EVENT.go:464-483 | datetimes are the decimal digits of their six parts in 8 bytes |
| MysqlColumnsWire.BitsOnWire | mysql/decode/events/types/E_ROWS_EVENT.go:507-515 | bits are big-endian in whole bytes and single bits as the metadata says, and kept raw |
| MysqlColumnsWire.EnumsOnWire | mysql/decode/events/types/E_ROWS_EVENT.go:576-593 | enums take 1 or 2 bytes by the low byte of the metadata, and any other size is an error |
| MysqlColumnsWire.RawOnWire | mysql/decode/events/types/E_ROWS_EVENT.go:490-519 | fractional temporal types and sets keep 4, 5 or 3 bytes and the fraction's, or as many as the metadata says |
| MysqlColumnsWire.BlobsOnWire | mysql/decode/events/types/E_ROWS_EVENT.go:595-606 | tiny, medium and long blobs have lengths of 1, 3 and 4 bytes |
| MysqlColumnsWire.SizedBlobsOnWire | mysql/decode/events/types/E_ROWS_EVENT.go:564-606 | blob, JSON and geometry have lengths of as many bytes as the metadata says |
| MysqlColumnsWire.UnsizedBlobsRefused | mysql/decode/events/types/E_ROWS_EVENT.go:564-567 | a length of no byte or of more than four is an error |
| MysqlColumnsWire.VarcharsOnWire | mysql/decode/events/types/E_ROWS_EVENT.go:545-562 | strings have one length byte up to 255 and two from 256 on |
| MysqlColumnsWire.CharsOnWire | mysql/decode/events/types/E_ROWS_EVENT.go:374-384 | the same for CHAR of up to 1023 bytes, from the metadata word with its inverted bits |
| MysqlColumnsWire.CarriedInString | mysql/decode/events/types/E_ROWS_EVENT.go:374-384 | ENUM and SET announced as STRING are read as what they are |
| MysqlColumnsWire.DecimalsOnWire | mysql/decode/events/types/E_ROWS_EVENT.go:496-506 | decimals of every precision and scale are read back from type 0xf6, with text, raw bytes and size |
| MysqlColumnsWire.TenTwoOnWire | mysql/decode/events/types/E_ROWS_EVENT.go:612-688 | every DECIMAL(10,2) from zero up, byte by byte: five bytes and their exact text |
| MysqlColumnsWire.KnownDecimal | mysql/decode/events/types/E_ROWS_EVENT.go:612-688 | 80 00 00 0c 22 is 12.34 |
| MysqlColumnsWire.NullOnWire | mysql/decode/events/types/E_ROWS_EVENT.go:387-389 | a NULL type takes no bytes |
| MysqlColumnsWire.ShortValues | mysql/decode/events/types/E_ROWS_EVENT.go:386-524 | each type whose value is cut short is an unexpected end |
| MysqlColumnsWire.ShortStrings | mysql/decode/events/types/E_ROWS_EVENT.go:545-574 | so is a string that announces more bytes than there are |
| MysqlColumnsWire.InvalidValues | mysql/decode/events/types/E_ROWS_EVENT.go:496-511 | short bits, and a scale above its precision, are invalid |
| MysqlColumnsWire.OtherTypesRefused | mysql/decode/events/types/E_ROWS_EVENT.go:525-527 | every other type is refused |
| MysqlTableMap.Decode | mysql/decode/events/types/E_TABLE_MAP_EVENT.go:99-161 | any map that decodes has types and metadata for every column, so rows never index out of range |
| MysqlTableMap.DecodeTableMap | mysql/decode/events/types/E_TABLE_MAP_EVENT.go:99-161 | the cursor code computes the specified outcome on every input |
| MysqlTableMap.DecodeMetaLoop | mysql/decode/events/types/E_TABLE_MAP_EVENT.go:61-97 | the metadata loop with its cursor computes the specified words or error |
| MysqlTableMap.MetaRoundTrip | mysql/decode/events/types/E_TABLE_MAP_EVENT.go:61-97 | column metadata of each width and byte order is read back, whatever follows |
| MysqlTableMap.MetaOnWire | mysql/decode/events/types/E_TABLE_MAP_EVENT.go:61-97 | which types have two metadata bytes, high or low one first, which have one and which none, by their type bytes |
| MysqlTableMap.ShortMeta | mysql/decode/events/types/E_TABLE_MAP_EVENT.go:61-97 | metadata that is cut short stops at run time |
| MysqlTableMap.CharMetaOnWire | mysql/decode/events/types/E_TABLE_MAP_EVENT.go:66-71 | the metadata of every CHAR length up to 1023, from its two bytes |
| MysqlTableMap.TableMapRoundTrip | mysql/decode/events/types/E_TABLE_MAP_EVENT.go:99-161 | every well-formed table map is decoded to itself, its id in 4 bytes where the 19th post-header is 6 bytes long and in 6 otherwise |
| MysqlTableMap.EndsSilently | mysql/decode/events/types/E_TABLE_MAP_EVENT.go:134-161 | a table map is answered with io.EOF if and only if its metadata string, or else its null bitmap, overruns |
| MysqlRows.DecodeRowValues | mysql/decode/events/types/E_ROWS_EVENT.go:323-367 | the loop that fills a row computes the specified image and size, or the same error |
| MysqlRows.DecodeRowsEventLoop | mysql/decode/events/types/E_ROWS_EVENT.go:148-241 | the body loop ends and computes the specified event on every payload and context |
| MysqlRows.RowRoundTrip | mysql/decode/events/types/E_ROWS_EVENT.go:323-367 | for every table, present-column bitmap and row, the image decodes to that row and its exact length, null bits counted over present columns only |
| MysqlRowsWire.HeaderRoundTrip | mysql/decode/events/types/E_ROWS_EVENT.go:148-202 | table id, flags, extra data, column count and bitmaps are read back for every event type byte, its version and id width |
| MysqlRowsWire.RowListRoundTrip | mysql/decode/events/types/E_ROWS_EVENT.go:214-240 | a concatenation of images is split into exactly its rows |
| MysqlRowsWire.PairsSurvive | mysql/decode/events/types/E_ROWS_EVENT.go:214-240 | before and after images alternate and come back as equally many of each when both bitmaps name a column; they vanish when neither does, and one empty bitmap is an error |
| MysqlRowsWire.RowsEventRoundTrip | mysql/decode/events/types/E_ROWS_EVENT.go:148-241 | a whole write or delete event comes back with its table's name and its rows, or none when its bitmap names no column |
| MysqlRowsWire.UpdateEventRoundTrip | mysql/decode/events/types/E_ROWS_EVENT.go:148-241 | the same for the update types with two bitmaps, in every case of these |
| MysqlRowsWire.RowsSurvive | mysql/decode/events/types/E_ROWS_EVENT.go:214-240 | the rows of a write or delete all come back if and only if there are none or the bitmap names a column |
| MysqlRowsWire.RowsNotDecoded | mysql/decode/events/types/E_ROWS_EVENT.go:203-210 | rows of a table without a map are flagged and left out; a map with fewer columns than the event is an error |
| MysqlRowsWire.RowsRefused | mysql/decode/events/types/E_ROWS_EVENT.go:148-168 | no description, no post-header length for the type, or too few bytes: each its own error |
| MysqlStatusVars.DecodeStatusLoop | mysql/decode/events/types/E_QUERY_EVENT.go:147-286 | the cursor loop computes the specified status on every input |
| MysqlStatusVars.ReadNamesLoop | mysql/decode/events/types/E_QUERY_EVENT.go:252-271 | the nested loop reads the counted zero-terminated names or reports the unterminated one |
| MysqlStatusVars.StatusComposes | mysql/decode/events/types/E_QUERY_EVENT.go:147-286 | after complete known entries, decoding goes on over what they decoded to |
| MysqlStatusVars.StatusOutcome | mysql/decode/events/types/E_QUERY_EVENT.go:147-286 | every block is complete entries followed by nothing, by an unknown key whose tail is kept, or by a cut-off entry that makes the whole an error |
| MysqlStatusVars.UnknownKey | mysql/decode/events/types/E_QUERY_EVENT.go:279-281 | a key above 0x0d ends the list and its bytes are kept |
| MysqlStatusVars.EntryRoundTrip | mysql/decode/events/types/E_QUERY_EVENT.go:155-277 | each kind of entry is read back from its bytes, whatever follows |
| MysqlStatusVars.EntryCutOff | mysql/decode/events/types/E_QUERY_EVENT.go:155-277 | every proper prefix of an entry is an error |
| MysqlStatusVars.StatusRoundTrip | mysql/decode/events/types/E_QUERY_EVENT.go:147-286 | any list of entries decodes to setting them one after the other, then to what follows |
| MysqlStatusVars.LastWriteWins | mysql/decode/events/types/E_QUERY_EVENT.go:155-277 | of several entries with one key the last one shows, whatever else is set |
| MysqlDecoder.BinFileDecoder.ReadNBytes | mysql/common/util.go:24-38 | a read takes exactly what was asked for, or drains the buffer and reports the end |
| MysqlDecoder.BinFileDecoder.ReadEventData | mysql/decode/decoder/file_decoder.go:133-144 | payload, checksum check and buffer position, with each failure kept apart |
| MysqlDecoder.BinFileDecoder.Apply | mysql/decode/decoder/file_decoder.go:179-199 | decoding a body changes the context exactly as its type says and not at all on an error |
| MysqlDecoder.BinFileDecoder.DecodeEvent | mysql/decode/decoder/file_decoder.go:156-200 | one event from the file: outcome, new context and rest of the buffer |
| MysqlDecoder.BinFileDecoder.DecodeRawEvent | mysql/decode/decoder/file_decoder.go:204-251 | one raw frame: outcome and new context |
| MysqlDecoder.BinFileDecoder.Events | mysql/decode/decoder/file_decoder.go:254-276 | the iterator yields the run's events and end; stopped early, it can be called again for the rest |
| MysqlDecoder.FrameAgreement | mysql/decode/decoder/file_decoder.go:156-251 | from equal contexts the two decoders give one outcome and one context, and the file moves by exactly the frame |
| MysqlDecoder.SkippedFrameAgreement | mysql/decode/decoder/file_decoder.go:166-235 | on a skipped frame they agree if and only if its payload validates |
| MysqlDecoder.UndersizedEvent | mysql/decode/decoder/file_decoder.go:133-144 | an event claiming to be shorter than its header stops the file decoder at run time and is an error of the raw one |
| MysqlDecoder.BodyEndsSilently | mysql/decode/decoder/file_decoder.go:254-276 | which bodies end a file's iterator silently, exactly |
| MysqlDecoder.FramesAgreement | mysql/decode/decoder/file_decoder.go:156-276 | file decoding of a concatenation of frames is frame-by-frame decoding of the list, cut before the first event beyond the stop bound, through changes of header length, checksum flag and table maps |
| MysqlDecoderWire.HeaderOnWire | mysql/decode/events/event_header.go:58-96 | every field of a long or a short header is read from its own bytes |
| MysqlDecoderWire.HeadersRefused | mysql/decode/events/event_header.go:58-64 | headers of fewer than 13 or of 14 to 18 bytes, or cut short, are refused |
| MysqlDecoderWire.ChecksumCut | mysql/decode/events/event.go:36-65 | a right checksum is cut off the body, a wrong one refuses it, and without checksums the body comes back whole |
| MysqlDecoderWire.BodiesRefused | mysql/decode/events/event.go:41-48 | a body of another size than announced, or with no room for its checksum, is refused |
| MysqlDecoderWire.FrameOnWire | mysql/decode/decoder/file_decoder.go:204-251 | a whole frame, in every case: unknown type, before the start, wrong checksum, or its payload decoded under the header it was written with |
| MysqlDecoderWire.FrameCutOff | mysql/decode/decoder/file_decoder.go:83-233 | a frame cut off in its header or body is an unexpected end for the raw decoder and the end of the file for the other |
| MysqlDecoderWire.VersionOnWire | mysql/decode/events/types/E_FORMAT_DESCRIPTION_EVENT.go:60 | a server version survives zeros on both sides of it |
| MysqlDecoderWire.DescriptionOnWire | mysql/decode/events/types/E_FORMAT_DESCRIPTION_EVENT.go:49-77 | a format description is read back field by field, becomes the current one, and the first one settles the plugin types |
| MysqlDecoderWire.TableMapEventOnWire | mysql/decode/decoder/file_decoder.go:179-199 | an event of type 0x13 is its table map, which its table goes by from then on |
| MysqlDecoderWire.OtherEventsOnWire | mysql/decode/decoder/file_decoder.go:179-199 | which type bytes are rows events, and that these and all other types leave the context alone |
| MysqlDecoderWire.LogRoundTrip | mysql/decode/decoder/file_decoder.go:156-274 | a whole log as a server writes it, under any start and stop bounds, is decoded to exactly what was logged: each header field and each body in its context, while header length, checksums and table maps change on the way |
| MysqlDecoderWire.RunWithinBounds | mysql/decode/decoder/options.go:52-75 | over any log, no event beyond the stop bounds is handed out, and none before the start bounds but format descriptions |
| MysqlResume.PositionRoundTrip | mysql/backend/backend.go:121-134 | a checkpoint's text gives back its file and position, for any file name |
| MysqlResume.StartsAt | mysql/backend/backend.go:88-126 | empty text opens at the beginning; otherwise the number behind the last colon, if not negative and of this driver or of none |
| MysqlResume.EventsAfterLoop | mysql/backend/backend.go:103-119 | the filtering loop keeps exactly the events placed after the start |
| MysqlResume.ResumedAt | mysql/decode/events/types/E_ROWS_EVENT.go:203-207 | event by event: a resumed run differs only in rows events whose map was not seen since the start, which lose their rows and gain the error mark |
| MysqlResume.BodyInStep | mysql/decode/events/types/E_TABLE_MAP_EVENT.go:150-161 | each decoded event keeps the resumed context's maps a current part of the full run's |
| MysqlResume.ResumeRefinesFullRun | mysql/backend/backend.go:26-119 | on any contiguous log read without error, reopening at the checkpoint of event k yields exactly the events after k, each as in the full run or unresolved |
| Bags.InsertUndone | mysql/decode/events/types/E_ROWS_EVENT.go:244-269 | deleting the inserted rows one by one always finds them and restores the table |
| Bags.DeleteUndone | mysql/decode/events/types/E_ROWS_EVENT.go:244-269 | inserting the deleted rows restores the table |
| Bags.UpdateUndone | mysql/decode/events/types/E_ROWS_EVENT.go:258-266 | with the before rows together in the table the update applies, its swapped pairs in the same order find every row and restore the table, and the after rows lie together in turn |
| Bags.UpdateUndoneExactly | mysql/decode/events/types/E_ROWS_EVENT.go:258-266 | an applied update is undone by its swapped pairs if and only if each finds its row by the count on the table before |
| Bags.ChainedUpdateNotUndone | mysql/decode/events/types/E_ROWS_EVENT.go:258-266 | an update that moves a row twice applies, and its swapped pairs in the same order do not |
| MysqlUndo.ReversibleUpdateBitmaps | mysql/decode/events/types/E_ROWS_EVENT.go:271-303 | a decoded update that reverses has every column in both bitmaps, so leaving them unswapped is right |
| MysqlUndo.DecodedShape | mysql/decode/events/types/E_ROWS_EVENT.go:203-240 | a decoded event has equally many before and after rows, rows of one sort only, and the error mark exactly when its map is missing |
| MysqlUndo.ReversesExactly | mysql/decode/events/types/E_ROWS_EVENT.go:244-292 | which events reverse, exactly, and into which type byte with which images |
| MysqlUndo.ReverseTwice | mysql/decode/events/types/E_ROWS_EVENT.go:244-292 | reversing a decoded event twice gives it back: type, table, bitmaps and images |
| MysqlUndo.UnpairedUpdatesNeverReverse | mysql/decode/events/types/E_ROWS_EVENT.go:316-320 | version 0 and partial updates have no reverse |
| MysqlUndo.EventUndone | mysql/decode/decoder/dblog.go:103-119 | applying an event and then its reverse leaves every table as it was if and only if the guard holds, which only updates can fail |
| MysqlUndo.TogetherGuarded | mysql/decode/events/types/E_ROWS_EVENT.go:244-292 | the guard holds of every write and delete, and of updates whose before images lie in the table together |
| MysqlUndo.ChainedChangeNotUndone | mysql/decode/events/types/E_ROWS_EVENT.go:258-266 | a concrete update that applies and has a reverse, and whose reverse does not apply |
| MysqlUndo.UndoInjective | mysql/decode/events/types/E_ROWS_EVENT.go:244-269 | a reversed event gives a state from one state only |
| MysqlUndo.MysqlWindowRollback | doc/RECOVERY.md:32-33 | over any run of applied events whose row changes have a reverse, replaying the plan in reverse restores every table if and only if each change is undone where it happened |
| MysqlRecovery.LogOrdered | mysql/decode/decoder/dblog.go:20-30 | the `file:pos` checkpoints of a contiguous log rise as read back from their text |
| MysqlRecovery.LogRollback | doc/RECOVERY.md:32-33 | end to end: the plan of a decoded log, sorted into reverse checkpoint order, restores every table under the same exact condition |
| MysqlRecovery.ResumedPlan | doc/RECOVERY.md:36-37 | the plan of a resumed run is whole, or even just as long, if and only if each changed table was mapped before use |
| MysqlRecovery.ReopenedPlan | doc/RECOVERY.md:36-37 | reopened at an event's checkpoint, a log gives the plan of the later events if and only if each changed table is mapped in between |
| RedisResp.Reader.ReadString | redis/decode/decoder/resp.go:72-74 | a line is read up to and including its newline, or to the end of the input |
| RedisResp.ReadLine | redis/decode/decoder/resp.go:72-84 | line, bytes consumed and bytes recorded, or the error |
| RedisResp.ReadBulkString | redis/decode/decoder/resp.go:49-70 | the same for a bulk string with its length line and terminator |
| RedisResp.ReadCommand | redis/decode/decoder/resp.go:19-47 | the same for a command: the bytes recorded are exactly the bytes consumed |
| RedisStream.Print | redis/decode/decoder/live.go:185-198 | the printer's loop writes the frame of its parts |
| RedisStream.FrameRoundTrip | redis/decode/decoder/resp.go:19-84 | a printed frame, whatever follows, parses to its lower-cased name and its arguments, or is refused exactly when it is outside the limits |
| RedisStream.CommandLocal | redis/decode/decoder/resp.go:19-84 | a parse depends on the bytes it consumed and no others |
| RedisStream.StreamRoundTrip | redis/decode/decoder/decoder.go:43-71 | decoding printed frames yields every command with its own frame as raw bytes, and then the end of input |
| RedisStream.RawConserved | redis/decode/decoder/resp.go:19-84 | on any bytes, the raw pieces concatenate to the decoded prefix, and each parses again to its command |
| RedisStream.PrefixStable | redis/decode/decoder/resp.go:19-84 | commands decoded from a prefix are a prefix of the commands of the stream |
| RedisStream.EventsAreNumbered | redis/decode/decoder/decoder.go:48-69 | positions count 1, 2, 3 and so on, and the start position drops exactly the events up to it |
| RedisStream.Decoder.Events | redis/decode/decoder/decoder.go:43-71 | the iterator yields the specified events; stopped early, it leaves exactly the rest of the stream in the reader |
| RedisStream.CountedAnew | redis/decode/decoder/decoder.go:48 | a later call, which counts from 1 again, hands out what is due if and only if nothing is left behind the start |
| RedisStream.RedisRestartExact | redis/backend/backend.go:70-83 | any sequence of interruptions adds up to the uninterrupted run |
| RedisLive.Slide | redis/decode/decoder/live.go:240-251 | the window, shifted in place, holds the last bytes read |
| RedisLive.DiscardUntil | redis/decode/decoder/live.go:235-254 | stops right after the first occurrence of the marker, and fails exactly when there is none or it is empty |
| RedisLive.SkipRDB | redis/decode/decoder/live.go:214-233 | consumes exactly the snapshot, in either form, or fails |
| RedisLive.SizedSnapshot | redis/decode/decoder/live.go:214-233 | a sized snapshot is skipped exactly, whatever its payload |
| RedisLive.MarkedSnapshot | redis/decode/decoder/live.go:214-254 | a marked snapshot is skipped exactly if and only if the marker first occurs at its end |
| RedisLive.MarkerInPayloadSkippedShort | redis/decode/decoder/live.go:235-254 | a payload that starts with the marker is taken for commands |
| RedisLive.RepliesRefused | redis/decode/decoder/live.go:173-228 | replies and snapshot headers that end the handshake: no status line, neither answer to PSYNC, a negative size, an empty marker |
| RedisLive.LiveDecoder.Handshake | redis/decode/decoder/live.go:153-183 | sends the three commands of the greeting and consumes exactly both replies, the resync line and the snapshot |
| RedisLive.LiveDecoder.Events | redis/decode/decoder/live.go:95-141 | refuses on a failed handshake; otherwise continues the numbered stream where the last call left it |
| RedisLive.LiveIsOffline | redis/decode/decoder/live.go:95-141 | after any accepted greeting, with a sized, a marked or no snapshot, live events are the numbered offline commands of the bytes that follow |
| RedisUndo.NegatedNumeral | redis/decode/events/types/command.go:74-92 | a signed 64-bit numeral, plus sign included, becomes one for the negated number, except -2^63, which becomes unreadable |
| RedisUndo.NegatedDelta | redis/decode/events/types/command.go:74-92 | any textual delta, fractions included, becomes one that denotes the negated value; only a bare sign or nothing is refused |
| RedisUndo.ReversesInWords | redis/decode/events/types/command.go:20-51 | pushes turn into pops of as many elements and increments into decrements, by their names |
| RedisUndo.DeltasInWords | redis/decode/events/types/command.go:52-92 | HINCRBY and HINCRBYFLOAT have their third argument negated, ZINCRBY its second |
| RedisUndo.NoReverseInWords | redis/decode/events/types/command.go:20-63 | no other command reverses, nor one with a wrong number of arguments |
| RedisUndo.VerbInAnyCase | redis/decode/decoder/resp.go:44 | a printed command is recognised by its name in any case |
| RedisUndo.CommandUndone | redis/decode/events/types/command.go:20-72 | on a list, counter or hash store, the reverse of an executed command succeeds and restores the store, missing reading as empty or zero |
| RedisUndo.CommandUndoneExactly | redis/decode/events/types/command.go:20-72 | it restores the very same store if and only if the counter or field existed before |
| RedisUndo.IncrementReverses | redis/decode/events/types/command.go:61-92 | the reverse of an executed increment runs if and only if its delta is not -2^63 |
| RedisUndo.LowestDeltaNotUndone | redis/decode/events/types/command.go:42-46 | a new counter incremented by -2^63 is not put back |
| RedisRecovery.RedisWindowRollback | doc/RECOVERY.md:32-33 | over any run whose reversible commands ran in one keyspace, with SELECT, PING and transaction marks between them, replaying the plan in reverse from there gets through if and only if no command increments by -2^63, and then restores every keyspace |
| RedisRecovery.UndoneInItsKeyspace | redis/decode/events/types/event.go:49-52 | a command that changed something is undone from a session in a keyspace if and only if it ran there |
| RedisRecovery.OtherKeyspaceNotUndone | redis/decode/events/types/event.go:49-52 | an increment in keyspace 1 undone from keyspace 0 damages both |
| RedisRecovery.StreamRollback | doc/RECOVERY.md:32-33 | end to end: the plan of a decoded stream, sorted into reverse checkpoint order, restores the server under the same exact condition |
| PgParser.ParseQuotedValue | postgres/decode/decoder/parser.go:185-202 | the cursor loop reads the quoted text and stops after its closing quote, or reports it unterminated |
| PgText.Unclosed | postgres/decode/decoder/parser.go:185-202 | a quote that is never closed is refused |
| PgText.ScalarsInWords | postgres/decode/decoder/parser.go:204-220 | `null`, `true`, `false` and every 64-bit numeral are told apart from other text |
| PgParser.ParseColumnAt | postgres/decode/decoder/parser.go:145-170 | the column at the cursor and where it ends, or the error |
| PgParser.ParseColumnsLoop | postgres/decode/decoder/parser.go:126-143 | the loop reads exactly the specified columns or fails |
| PgText.QuoteRoundTrip | postgres/decode/events/types/sql.go:69-83 | reading inverts the quote doubling of flashback literals on every string |
| PgText.LiteralRoundTrip | postgres/decode/events/types/sql.go:69-83 | every null, boolean, integer and quoted literal of a flashback reads back as its value |
| PgText.ColumnConserved | postgres/decode/decoder/parser.go:145-170 | any column that is read renders to the very text it was read from |
| PgText.ColumnsRoundTrip | postgres/decode/decoder/parser.go:126-202 | rendered columns are read back if and only if names and types avoid the delimiters |
| PgText.ArrayNotRoundTripped | postgres/decode/decoder/parser.go:145-170 | a column of any array type makes the line an error |
| PgText.UpdateRoundTrip | postgres/decode/decoder/parser.go:96-117 | old key and new tuple are recovered if and only if the separator text does not occur in the old key |
| PgText.SeparatorInTextNotRoundTripped | postgres/decode/decoder/parser.go:96-117 | an old key whose quoted text starts with the separator is cut wrong |
| PgStream.SplitQualified | postgres/decode/decoder/parser.go:119-124 | schema and table are recovered from the qualified name if and only if the table's own name has no dot |
| PgStream.LineRoundTrip | postgres/decode/decoder/parser.go:62-94 | a change's line comes back if and only if its qualified name is not empty, trimmed or cut and its columns come back |
| PgStream.RowLineRoundTrip | postgres/decode/decoder/parser.go:62-117 | for inserts and deletes: if and only if the name keeps and no column name or type holds a delimiter |
| PgStream.UpdateLineRoundTrip | postgres/decode/decoder/parser.go:62-117 | for updates with both images: if and only if the name keeps and the old key does not hold the separator |
| PgStream.OtherLines | postgres/decode/decoder/parser.go:38-60 | BEGIN and COMMIT lines give their transaction ids, and lines of no known kind are refused |
| PgStream.NamelessLines | postgres/decode/decoder/parser.go:62-71 | a table line without a field or without a table is refused |
| PgStream.LinesWithoutOperation | postgres/decode/decoder/parser.go:72-80 | and so is one without an operation |
| PgStream.BlankExactly | postgres/decode/decoder/decoder.go:56-58 | lines of spaces and the controls from tab to carriage return, and only these, are no events |
| PgStream.Decoder.Events | postgres/decode/decoder/decoder.go:44-72 | the iterator yields the specified events; stopped early, it leaves exactly the rest of the lines in the scanner |
| PgStream.CountedAnew | postgres/decode/decoder/decoder.go:49 | over readable lines, a later call, which counts from 1 again, hands out what is due if and only if nothing is left behind the start |
| PgStream.OpenAtEvent | postgres/decode/decoder/decoder.go:49-67 | starting at an event's position skips everything through it, blank lines counted, and nothing more |
| PgStream.PgRestartExact | postgres/backend/backend.go:80-93 | any sequence of interruptions adds up to the uninterrupted run |
| PgFlashback.CoversColumnsLoop | postgres/decode/events/types/event.go:74-85 | the loop over a name set decides whether the old key names every new column |
| PgFlashback.OperationsInWords | postgres/decode/decoder/parser.go:77 | lines whose operation is `insert`, `update` or `delete` in any case parse to the three row operations |
| PgFlashback.BuildReverse | postgres/decode/events/types/event.go:51-70 | the case analysis and the loops that build statements give the specified reverse, or none |
| PgFlashback.WhereSelects | postgres/decode/events/types/sql.go:33-44 | under three-valued logic the conditions, as the server reads their literals, pick exactly the rows that agree with them, nulls included |
| PgFlashback.EqualsNullSelectsNothing | postgres/decode/events/types/sql.go:37-40 | without the branch for null a record with a null would pick no row |
| PgUndo.InsertUndone | postgres/decode/events/types/sql.go:20-22 | the delete restores the table if and only if its literals read back and no other row agrees with the record |
| PgUndo.DeleteUndone | postgres/decode/events/types/sql.go:9-18 | the insert restores the table if and only if its literals read back and every column the record leaves out held its default |
| PgUndo.UpdateUndone | postgres/decode/events/types/sql.go:24-31 | the update restores the table if and only if its literals read back, the old key covers every changed column and no other row equals the new one; and what must hold if the new tuple does not read back |
| PgUndo.UpdateReverses | postgres/decode/events/types/event.go:59-64 | over a whole new tuple, a flashback is emitted if and only if the old key names every column |
| PgUndo.FlashbackTarget | postgres/decode/events/types/sql.go:9-31 | a flashback names the schema and table of its change |
| PgUndo.ChangeUndone | postgres/decode/events/types/event.go:51-70 | an applied change, its records whole or partial, is undone by its emitted reverse if and only if it is reversible |
| PgUndo.DistinctRowsReversible | postgres/decode/events/types/event.go:51-70 | in a table that holds no row twice, whole records that read back are enough |
| PgUndo.PgWindowRollback | doc/RECOVERY.md:32-33 | over any run of changes that are reversible where they happen, and transaction ends, replaying the plan's statements in reverse restores every table, whether records are whole or not |
| PgUndo.DoubleInsertRolledBack | doc/RECOVERY.md:32-33 | those conditions are not all needed: a row inserted twice into an empty table is rolled back |
| PgUndo.InsertsRolledBack | doc/RECOVERY.md:32-33 | a window of inserts and deletes is rolled back if and only if the first insert of each row found no copy of it |
| PgUndo.StreamRollback | doc/RECOVERY.md:32-33 | end to end: the plan of the decoded lines, sorted into reverse checkpoint order, restores every table |

## Left out

- Connections, goroutines, timers, loggers, DSN parsing, the backend registry and MongoDB: plumbing, or structural copies. The model starts from bytes, characters or lines.
- Buffer limits of `bufio`, and splitting input into lines: the PostgreSQL decoder starts from lines already split, and readers never run out of buffer.
- CRC32, reading the server version text, plugin registration errors and the bodies of all other MySQL events: parameters of the model's environment, any functions at all. MariaDB's compressed rows, which look up table maps, are not part of it.
- Command plugins and PostgreSQL event plugins: none are installed.
- Slices that reach past a length but stay within a Go capacity count as a run-time stop, because capacities are not modelled.
- MysqlColumns.KindRoundTrip: FLOAT and DOUBLE keep their bits, JSON, geometry and the newer temporal types their bytes as in the source; dates are the parts handed to `time.Date`, which turns a zero month or day, storable in MySQL, into another date. Calendar and floating-point arithmetic are left out.
- MysqlColumns.ColumnRoundTrip: the same.
- BIT columns wider than 64 bits: the decoder model wraps as the code does; the writer model does not produce them.
- Text is one character per byte. Lower-casing and trimming are those of ASCII.
- RedisRecovery.RedisWindowRollback: asks that the window's reversible commands ran in one keyspace; in others, increments by zero and mistakes that cancel can still be rolled back. Keyspaces of lists, counters and hashes of integers, without expiry. ZINCRBY and HINCRBYFLOAT reverse in the model, but their arithmetic in the store is floating point, so for them only `RedisUndo.NegatedDelta` is proved. That servers refuse numerals spelled "+5" or "-0" is not modelled.
- PgUndo.PgWindowRollback: enough for any window, exact only for windows of inserts and deletes (`PgUndo.InsertsRolledBack`). In windows with updates one statement's excess rows can make up for another's, and no condition short of tracing where each row ends up is given. New tuples are taken to be whole, as servers write them. Constraints, triggers and generated columns are not modelled.
- PgStream.CountedAnew: asks that all lines be readable. With unreadable lines the two calls may break off at different ones and still hand out equal events by coincidence.
- The text of flashback SQL: statements are kept as their parts. Identifier quoting folds no case and leaves quoted names alone, so no round trip holds for it. Text that was decoded neither as null, a boolean, an integer nor a quoted string is printed through float64 or as a quoted string; what the server reads it back as, or that it refuses it, is a parameter, any function at all.
- Reading zero bytes at the end of the input, which Go may report as the end, is read as success.
- Row order in tables: tables are multisets of rows.
