# Verified model of the log reader

The log reader tails one access log written in the b2log framing, turns each frame into a record and
hands the records to modules that write them to MySQL or to Kafka. A command line tool prints a
log (`cat`), its last records (`tail`) and what is appended to it (`tail -f`) with the same parser.

This project models that pipeline in Dafny and proves what it keeps.

| file | what it holds |
|---|---|
| `Framing.dfy`, `B2log.dfy`, `PbParse.dfy` | the framer interface and its laws; the concrete 24-byte b2log framing, which obeys them; frames to records |
| `FileSystem.dfy`, `Kernel.dfy` | append-only files, rotation, a path that may name nothing; system calls that may fail or return less than asked |
| `ReaderMachine.dfy`, `Rotation.dfy`, `PbLogReader.dfy` | the daemon: a state machine with one step per system call, the theorems about all its runs, and the class with the source's fields and methods |
| `FanOut.dfy`, `Interleaving.dfy` | cutting records into batches and giving them to modules in concurrent goroutines; what their interleaving does to the table |
| `Cat.dfy`, `Tail.dfy`, `Follow.dfy`, `FollowRuns.dfy` | the command line tool; what `tail -f` shows over whole runs |
| `DetailTable.dfy` | the MySQL table: upsert by a key that may contain NULL |
| `WriterMachine.dfy`, `MysqlWriter.dfy`, `RecordWriter.dfy` | the MySQL writer: state machine, theorems, class |
| `KafkaMachine.dfy`, `KafkaProducer.dfy` | the Kafka producer: state machine with its theorems, class |
| `FieldMapper.dfy`, `Statement.dfy`, `SqlText.dfy`, `IpText.dfy` | row assembly; SQL text and arguments, and how a database reads them; printed addresses |
| `EndToEnd.dfy` | from the log file to the table, across a restart with `-b` |
| `UpdateLoop.dfy` | the loop of Update, which both modules have |
| `Sequences.dfy`, `Turns.dfy` | facts about sequences; a goroutine that takes turns with its environment |

How it is built:

- **Concurrency** is a state machine: an event for every step of every goroutine, and theorems
  for every list of events. `select` takes any case that is ready; other goroutines may run
  between any two steps.
- **The environment** is a parameter. Class methods take what the kernel, the database, the
  broker, the scheduler and the other goroutines do from an arbitrary `schedule`, one turn per
  interaction, so that a proof covers every environment.
- **Classes are tied to machines.** `Valid()` of a class says that its fields are the state that
  the recorded events lead to. In `PbLogReader` it says besides that every recorded event was the
  call due at that moment and had the outcome the kernel had in store. What is proved of every
  run of a machine therefore holds of the methods. The loops of the two writer goroutines promise
  more: `Turns.Ran` says that their state is what `TurnStep`, taken once for every turn that went
  by, makes of the state before.
- **Protobuf decoding, JSON marshalling and field extraction** are arbitrary functions.
- **The framer** is a value that obeys two laws (`Framing.Framer.Lawful`). All readers are proved
  against these laws only; `B2log.B2logIsLawful` discharges them.

Verify with `dafny verify dfyconfig.toml`.

## What was found

Where the code and its documentation differ, the model follows the code.

- Replaying a log with `-b` is documented as safe because of the unique key
  (doc/sys_design/overview.md:157, 164-165). A row whose key has a NULL is inserted once more by
  every replay, and the mapper writes NULL for an empty API key or model. Replay is harmless
  exactly if every row that is stored has a full key (`DetailTable.ReplayIsAbsorbedIff`,
  `DetailTable.ReplayFromTheBeginningIff`, `FieldMapper.KeyIsFullIff`); with full keys a clean pass
  repairs whatever an earlier run has done (`EndToEnd.ReplayDaemonRepairsAnyRun`).
- A batch is documented as retried up to `MaxRetries` times and then dropped
  (doc/sys_design/mod_log_mysql.md:69). With `MaxRetries >= 4` the fifth attempt reads past the
  end of the backoff table; the writer recovers from the panic by returning, and from then on
  rows are accepted but never written (`MysqlWriter.WriterCanPanicIff`,
  `MysqlWriter.NothingIsWrittenAfterAPanic`).
- `Update` is documented as serial within a module (doc/sys_design/overview.md:114). Each batch
  has a goroutine of its own, so the batches of one module may interleave, though each arrives in
  its own order. All ways leave the same table exactly if for every full key the batches that have
  a row with it all end with the same one (`Interleaving.InterleavingDoesNotMatterIff`); so several
  requests with one key within a batch do no harm, but different ones in two batches do.
- On a rotation the old file is documented as read to its end before the new one is opened
  (doc/sys_design/overview.md:86), and it is. But the reader looks at the path only when it is at
  the end of its file, so a file that comes and goes between two looks is never opened
  (`Rotation.TwoRotationsLoseAFile`). With `-b` and no failing read everything is delivered exactly
  if each file that holds a frame was still the newest, with the path naming it, at some open that
  succeeded together with its seek (`Rotation.NothingIsLostIff`), and so whenever there is at most
  one rotation between two opens (`Rotation.OneRotationBetweenOpensLosesNothing`).
- `tail` on a log of more than 8 MiB may print records twice, because each further window is
  parsed together with everything already parsed. Take a log of two windows, the last 8 MiB and at
  most 16 MiB before it, with fewer than the n wanted records in the last window and nothing left
  over at the end of that window that makes a difference when it is put in front of it: the answer
  is right exactly if the log has n records or the last window has none
  (`Tail.TwoWindowTailIsRightIff`, `Tail.SecondWindowRepeatsRecords`; for more windows
  `Tail.ManyWindowTailIsRightIff`). If the log ends in a record
  that is still being written, its header is put in front of the window and takes the first bytes
  of the window for its payload, so that a record which was never written may be shown, even if
  the log has n records (`Tail.UnfinishedRecordIsShown`, `Tail.UnfinishedRecordSpoilsTheTail`,
  `Tail.UnfinishedRecordShowsGarbage`).
- Following starts with an empty buffer, so a record that was being written when `tail` looked
  is lost; the hand-off is lossless exactly if no frame can begin in what was left over there
  (`B2log.SeamIsLosslessIffClean`).
- `tail -f` reads a file up to the size that stat reported. What is appended after the last stat
  that names the file, before it is rotated away, is never read; what was shown of the files left
  behind is all they hold exactly if in none of them these bytes complete a record
  (`FollowRuns.FilesLeftBehindAreShownIff`, with a run in `FollowRuns.MissesTheEndOfAFile`).
- `tail -f` opens a file by its path, a moment after the stat that told it to. If the log is rotated
  in between, it takes the new file for the old one; the next answer makes it open the log again,
  and what it finds is the same file, shown again from its beginning, exactly if there was no other
  rotation until then (`FollowRuns.RotationBetweenStatAndOpenRepeatsIff`,
  `FollowRuns.OpenedAgainIsShownAgain`, with a run in `FollowRuns.ShowsAFileTwice`).
- `SENT_TO_KAFKA` counts dropped messages too (`KafkaMachine.CountersAddUp`).
- The last write of the Kafka producer may hold up to `3 * BatchSize - 1` messages, and any that
  many can end up in it (`KafkaMachine.LastFlushIsBounded`, `KafkaMachine.LastFlushBoundIsReached`).

## Model

| member | source | states |
|---|---|---|
| `B2log.ParseAppend` | doc/sys_design/overview.md:92-95 | parsing a + b is parsing a, then what was left followed by b, also when a header or its magic is cut by the seam |
| `B2log.RestIsIdle` | bfe_log_reader/pb_buff_parse_test.go:44-61 | the leftover is the end of the buffer, holds no frame, is shorter than one frame of maximal size, and each frame used up at least a header |
| `B2log.B2logIsLawful` | bfe_log_reader/pb_buff_parse.go:28-29 | the b2log framing obeys the two laws on which all readers rest |
| `B2log.EncodeIsOneFrame` | tests/integration/common/log_generator.go:46-60 | a record as the writer lays it out is one frame, whatever follows it |
| `B2log.RecordIsOneFrame` | doc/sys_design/overview.md:92 | the same byte by byte: 24 bytes of header with magic, length and a zero in their places, and any payload of at most 102400 bytes |
| `B2log.WrittenRecordsParseBack` | tests/integration/common/log_generator.go:46-60 | round trip: written records of up to 102400 bytes each come back once, in order, with nothing left |
| `B2log.UnfinishedRecordIsKept` | bfe_log_reader/pb_buff_parse_test.go:44-61 | however much of a record has been read, as long as something is missing all of it is kept |
| `B2log.DirtIsSkipped` | doc/sys_design/overview.md:94 | resync: bytes among which no acceptable header starts are dropped and nothing behind them is |
| `B2log.CompressedRecordIsSkipped` | doc/sys_design/overview.md:95 | a compressed record is dropped whole and nothing behind it is |
| `B2log.SeamIsLosslessIffClean` | cmd/bfe-pblog-tool/tail/pb_tail.go:184-187 | starting with an empty buffer at the end of c loses and adds nothing, for every continuation, if and only if no frame can begin in the leftover of c |
| `Framing.Framer.BoundaryIsSeamless` | cmd/bfe-pblog-tool/tail/pb_tail.go:184-187 | for any lawful framing, the end of a frame is such a place |
| `Framing.Framer.SlicingDoesNotMatter` | bfe_log_reader/pb_log_reader.go:104-109 | however a stream is cut into reads, append-and-parse yields the frames of one parse, and the buffer its leftover |
| `PbParse.PbBuffParse` | bfe_log_reader/pb_buff_parse.go:25-51 | the records are those of the frames that decode, in order; every frame that does not is counted; the rest is the framer's |
| `PbParse.RecordsAppend` | bfe_log_reader/pb_buff_parse.go:25-51 | the law of the framer for decoded records |
| `FileSystem.ChangesGrow` | doc/sys_design/overview.md:84-86 | whatever the log writer and rotation do, files only grow, and only the newest does |
| `ReaderMachine.EveryRunKeepsInv` | bfe_log_reader/log_reader.go:104-314 | in every reachable state the frames are those of the stretches read, the buffer holds only the unparsed end of the open file, openings are in order, an owed tail of the old file is never joined to the next |
| `Rotation.RotationLosesAndRepeatsNothing` | bfe_log_reader/pb_log_reader.go:87-109 | if no read fails, what was delivered is the frames of each opened file, the first from where it was entered, later ones from byte 0, all but the last to the end, none twice |
| `Rotation.FileIsEnteredIff` | bfe_log_reader/log_reader.go:104-164 | a file is entered if and only if an open that was due succeeded while the path named it, and the seek after it succeeded too |
| `Rotation.OpeningBeginsAt` | bfe_log_reader/log_reader.go:113-137 | where every opening of every run begins: at byte 0 with `-b` or after a file that was read to its end, otherwise, and so for the first file without `-b`, at the size the file had at the seek |
| `Rotation.NothingIsLostIff` | bfe_log_reader/log_reader.go:296-314 | with `-b` and no failing read, once caught up, every frame ever written was delivered if and only if each file that holds one was still the newest at such an open |
| `Rotation.OneRotationBetweenOpensLosesNothing` | bfe_log_reader/log_reader.go:296-314 | with `-b` and no failing read, if there was one file at the first open and at most one rotation since the last open at each later one, every frame ever written is delivered once the reader has caught up |
| `Rotation.SkippedFilesAreTheLoss` | bfe_log_reader/log_reader.go:296-314 | the frames of the files entered equal those of all files if and only if the skipped ones are empty |
| `Rotation.TwoRotationsLoseAFile` | bfe_log_reader/log_reader.go:215-225 | for every record there is a run with two rotations between two looks that never delivers it |
| `Rotation.NoByteIsReadTwice` | bfe_log_reader/log_reader.go:113-137 | without `-b` two stretches read from one file never overlap, read errors included |
| `Rotation.BetweenCalls` | bfe_log_reader/log_reader.go:104-212 | after any run, an open file implies initDone and its own fileInfo; the buffer is the leftover of what was read from it, less than one frame; a file entered after a drained one starts at byte 0 |
| `Rotation.ReadsReachTheEnd` | bfe_log_reader/log_reader.go:233-259 | while the log stays as it is, successful reads of any size reach the end of the file |
| `Rotation.RoundOpensTheLog` | bfe_log_reader/pb_log_reader.go:62-77 | from every reachable state without an open file, one round of stat, open and seek opens the newest file, if the log is there, or stat fails otherwise than by its absence, and the path names it when it is opened |
| `Rotation.RoundFollowsTheRotation` | bfe_log_reader/log_reader.go:296-314 | from every reachable state, a reader at the end of its file that finds the path naming another has, one round later, read the old one to its very end and the newest one open at byte 0 |
| `PbLogReader.PbLogReader.DataBufferParse` | bfe_log_reader/pb_log_reader.go:37-46 | parses the buffer, keeps the leftover, counts records and decoding failures |
| `PbLogReader.PbLogReader.LogFileOpen` | bfe_log_reader/log_reader.go:104-164 | the file is open if and only if the path named one in the turn of the open and neither open nor seek failed, and then it is the one that was named |
| `PbLogReader.PbLogReader.Position` | bfe_log_reader/log_reader.go:113-161 | the first file is entered at the size it has, unless `-b`, every later one at byte 0 |
| `PbLogReader.PbLogReader.CloseFileAndInit` | bfe_log_reader/log_reader.go:199-212 | the state after a read error: no file, no buffer, initDone reset |
| `PbLogReader.PbLogReader.IsLogCut` | bfe_log_reader/log_reader.go:215-225 | the log counts as cut exactly if stat succeeds and names another file |
| `PbLogReader.PbLogReader.FRead` | bfe_log_reader/log_reader.go:233-259 | with 0 everything up to the end, otherwise some of what is there; an oversized request is an error |
| `PbLogReader.PbLogReader.FileRead` | bfe_log_reader/log_reader.go:272-284 | as fRead; an error closes the file and clears the state |
| `PbLogReader.PbLogReader.LogRelocate` | bfe_log_reader/log_reader.go:171-196 | closes the old file after its last byte and opens the one the path names, if that succeeds |
| `PbLogReader.PbLogReader.EofHandler` | bfe_log_reader/log_reader.go:296-314 | without a cut nothing happens; with one the rest of the old file is returned and the file the path then names is opened, if that succeeds |
| `PbLogReader.PbLogReader.ParseOldEnd` | bfe_log_reader/pb_log_reader.go:92-103 | the tail of the old file is parsed behind the buffer, and the buffer is then cleared |
| `PbLogReader.PbLogReader.LogRead` | bfe_log_reader/pb_log_reader.go:55-112 | one call delivers exactly the records of the frames it adds. Without an open file it fails if the log is absent or open or seek fails; otherwise the file the path named at the open has been entered and read from, unless that read fails. With one it fails exactly if the read does, and afterwards has the same file open, or the one the path names if the end was reached and that is another |
| `PbLogReader.PbLogReader.StatPath` | bfe_log_reader/pb_log_reader.go:64-67 | the log counts as absent exactly if nothing is there and stat says so |
| `PbLogReader.PbLogReader.Start` | bfe_log_reader/pb_log_reader.go:115-173 | over any number of rounds the batches hold every delivered record once and in order, and, if no read failed, these are the records of the opened files |
| `FanOut.SplitBatches` | bfe_log_reader/pb_log_reader.go:137-155 | the batches concatenate to the records, all full but the last, as many as needed and no more; one batch if the limit is not positive |
| `FanOut.EachBatchArrivesInOrder` | bfe_log_reader/pb_log_reader.go:159-172 | under every interleaving each batch arrives in its own order |
| `FanOut.NothingIsLostOnTheWay` | bfe_log_reader/pb_log_reader.go:159-172 | under every interleaving what arrived and what is still to come are together the records |
| `FanOut.FanOutDeliversEverything` | bfe_log_reader/pb_log_reader.go:137-173 | once all goroutines are done, the module has every record exactly once |
| `Cat.EveryScheduleParsesAPrefix` | cmd/bfe-pblog-tool/cat/pb_cat.go:38-62 | in every reachable state bytes read are bytes parsed, then the channel, then the piece being sent |
| `Cat.FinishedCatPrintsTheFile` | cmd/bfe-pblog-tool/cat/pb_cat.go:35-64 | when both goroutines are done, exactly the frames of what was read were printed, and that is the whole file |
| `Cat.SomeoneCanGoOn` | cmd/bfe-pblog-tool/cat/pb_cat.go:38-62 | no deadlock over the 1024-slot channel |
| `Cat.EveryScheduleEnds` | cmd/bfe-pblog-tool/cat/pb_cat.go:38-64 | while the file does not grow every schedule ends within a bound |
| `Cat.PblogCat` | cmd/bfe-pblog-tool/cat/pb_cat.go:23-66 | the whole program prints the records of the file, under every scheduler |
| `Tail.ParseRepeatedly` | cmd/bfe-pblog-tool/tail/pb_tail.go:129-141 | the inner loop terminates and yields one parse of the buffer |
| `Tail.TailLastN` | cmd/bfe-pblog-tool/tail/pb_tail.go:75-166 | shows the last n of what the windows yield; refuses n <= 0; the end offset is the size seen |
| `Tail.OneWindowTailIsTheTail` | cmd/bfe-pblog-tool/tail/pb_tail.go:75-166 | a log of at most one window: the last min(n, k) of its k records |
| `Tail.TwoWindowTailIsRightIff` | cmd/bfe-pblog-tool/tail/pb_tail.go:126-141 | at most 16 MiB, then a last window of 8 MiB with fewer than n records and a leftover that makes no difference in front of it: the answer is right if and only if the log has n records or the last window has none |
| `Tail.ManyWindowsAddUp` | cmd/bfe-pblog-tool/tail/pb_tail.go:96-153 | a log of any size whose windows (8, 16, 32, then 64 MiB) leave nothing over: what is shown is the last n of what the windows yield, one after the other, each with all that follows it |
| `Tail.ManyWindowTailIsRightIff` | cmd/bfe-pblog-tool/tail/pb_tail.go:96-153 | such an answer is right if the last window read holds n records; if the search went back to the beginning, it is right if and only if the log has n records or no earlier window had any |
| `Tail.NoLeftoverIsInert` | cmd/bfe-pblog-tool/tail/pb_tail.go:128-128 | no leftover makes no difference: the common case of the row above |
| `Tail.CleanSeamsAreInert` | cmd/bfe-pblog-tool/tail/pb_tail.go:128-128 | a leftover makes no difference if no frame can begin in it, nor in what the older part leaves over |
| `Tail.UnfinishedRecordIsShown` | cmd/bfe-pblog-tool/tail/pb_tail.go:126-141 | the last window ends in a record of which a part is missing: what is shown is the last n of its records, the older ones, one made of the first bytes of the window, and what is found behind these bytes |
| `Tail.UnfinishedRecordSpoilsTheTail` | cmd/bfe-pblog-tool/tail/pb_tail.go:126-141 | then the answer is wrong whenever that makes a record and the log has fewer than n, or that record is none of the log and fewer than n are found behind it |
| `Tail.UnfinishedRecordShowsGarbage` | cmd/bfe-pblog-tool/tail/pb_tail.go:126-141 | for any two records there is a log of these two, and a third being written, whose last two records are shown as one that was never written and the second |
| `Tail.CutRecordTakesTheLeftover` | cmd/bfe-pblog-tool/tail/pb_tail.go:126-141 | the last window starts inside a record, whatever it leaves over: what is shown is the last n of its records, the older ones, the cut record with the leftover pushed into its payload, and what is found behind it |
| `Tail.CutRecordSpoilsTheTail` | cmd/bfe-pblog-tool/tail/pb_tail.go:126-141 | then the answer is wrong if that makes a record that is none of the log, with fewer than n found behind it |
| `Tail.FullWindowTailIsTheTail` | cmd/bfe-pblog-tool/tail/pb_tail.go:110-153 | a last window that holds n records gives the right answer, also if it starts inside a frame in whose end no frame is found by mistake |
| `Tail.WindowMayStartInsideAFrame` | cmd/bfe-pblog-tool/tail/pb_tail.go:110-153 | the same for a b2log: no acceptable header starts in the end of the frame that the window cuts |
| `Tail.SecondWindowRepeatsRecords` | cmd/bfe-pblog-tool/tail/pb_tail.go:128-138 | for any two records there is a log of which the default tail shows the second one twice |
| `Follow.ParseAppended` | cmd/bfe-pblog-tool/tail/pb_tail.go:238-260 | the inner parse loop terminates; remainder and chunk are parsed as one buffer unless emit refuses |
| `Follow.ReadChunk` | cmd/bfe-pblog-tool/tail/pb_tail.go:221-261 | after every chunk, emitted records and remainder are those of one parse of what was read |
| `Follow.ReadAppended` | cmd/bfe-pblog-tool/tail/pb_tail.go:215-262 | all bytes up to the size seen are read if the open file has them, however the chunks fall |
| `Follow.Poll` | cmd/bfe-pblog-tool/tail/pb_tail.go:189-266 | one poll keeps the emitted records equal to the parse of the stretches read; it opens the file that the path names a turn later if and only if what stat answered in its turn is another file than believed or a shorter one; the open file is then read to the size seen, or to its end |
| `Follow.FollowFrom` | cmd/bfe-pblog-tool/tail/pb_tail.go:170-267 | for so many polls, rotations or not: what was emitted is the records of each opening parsed on its own, the first from the start offset, later ones from byte 0; which files were opened, and how far each was read, is what the polls make one after the other of the answers that the schedule has for them |
| `Follow.TailCount` | cmd/bfe-pblog-tool/tail/pb_tail.go:47-67 | a negative count is refused, and a negative interval when following; 0 means 10, more than 100000 means 100000, and anything in between is unchanged |
| `Follow.PblogTail` | cmd/bfe-pblog-tool/tail/pb_tail.go:271-294 | the output is the tail of the log as it was when its size was asked for, then the records that such a run of polls has read from that size on, rotations or not |
| `Follow.HandOffIsSeamless` | cmd/bfe-pblog-tool/tail/pb_tail.go:271-293 | if the log is within one window and ends where a parser may start empty, tail and later records are the last records of the whole log, none lost or repeated |
| `FollowRuns.FollowingKeepsUp` | cmd/bfe-pblog-tool/tail/pb_tail.go:189-219 | over every run, after each poll the file that the last answer named, or a newer one, is open, and if it is that one, it has been read to the size it had then |
| `FollowRuns.OneFileIsFollowed` | cmd/bfe-pblog-tool/tail/pb_tail.go:189-212 | while no file is created, a run of PblogTail opens one file, the one it showed, and has read it from the size it had then to the size that the last poll saw |
| `FollowRuns.FollowedTailIsSeamless` | cmd/bfe-pblog-tool/tail/pb_tail.go:271-293 | so what a run of PblogTail has shown is the last n records that were there at first and every record appended up to the size that the last poll saw, none lost or repeated |
| `FollowRuns.FilesLeftBehindAreShownIff` | cmd/bfe-pblog-tool/tail/pb_tail.go:202-219 | over every run, each file left behind was read to the size it had at the last answer that named it; what was shown of these files is all they hold if and only if in none of them the bytes after that complete a record |
| `FollowRuns.MissesTheEndOfAFile` | cmd/bfe-pblog-tool/tail/pb_tail.go:202-219 | a run of two polls that shows nothing of what was appended before a rotation, whatever it is |
| `FollowRuns.FileIsOpenedAgainIff` | cmd/bfe-pblog-tool/tail/pb_tail.go:189-212 | over every run, the open file is opened again later if and only if an older one is believed to be open and it is still the newest when the next answered poll opens the log |
| `FollowRuns.RotationBetweenStatAndOpenRepeatsIff` | cmd/bfe-pblog-tool/tail/pb_tail.go:191-212 | in terms of the log: a file that a poll opened is opened again if and only if the log was rotated between the stat and the open of that poll, and not from there to the open of the next answered one |
| `FollowRuns.OpenedAgainIsShownAgain` | cmd/bfe-pblog-tool/tail/pb_tail.go:202-212 | a file opened twice is opened twice in a row, and every record that was shown of it the first time is shown again |
| `FollowRuns.ShowsAFileTwice` | cmd/bfe-pblog-tool/tail/pb_tail.go:191-212 | a run of two polls that shows all records of the newest file twice |
| `DetailTable.ApplyKeyByKey` | reader_modules/mod_log_mysql/record_writer.go:58-66 | after a batch a full key holds the last row with that key, or what it held before; rows without a full key are added |
| `DetailTable.ReplayIsAbsorbedIff` | tests/integration/implementation/scenario-LR03-mysql-write/testdata/ddl/bfe_ai_request_log.sql:119-120 | a transaction before another one makes no difference to any table if and only if every row that it stores has a full key that the other one stores again; one row with NULL for host or time makes a transaction store nothing |
| `DetailTable.SendingTwiceIsOnceIff` | reader_modules/mod_log_mysql/record_writer.go:157-180 | sending a batch twice is sending it once if and only if its rows have full keys |
| `DetailTable.ReplayFromTheBeginningIff` | doc/sys_design/overview.md:157-165 | a second pass over a log that may have grown leaves what one clean pass leaves if and only if the rows of the first have full keys |
| `DetailTable.OrderDoesNotMatterIff` | reader_modules/mod_log_mysql/record_writer.go:58-66 | of the upsert alone: every order whatever of the same rows leaves the same table if and only if no two different rows share a full key |
| `Interleaving.EveryRowArrives` | bfe_log_reader/pb_log_reader.go:159-172 | under every interleaving Update gets the rows of all records, each as often as there are such records |
| `Interleaving.InterleavingDoesNotMatterIff` | bfe_log_reader/pb_log_reader.go:159-172 | every interleaving of the batches leaves the same table if and only if for every full key all batches that have a row with it end with the same one |
| `WriterMachine.EveryRunKeepsInv` | reader_modules/mod_log_mysql/record_writer.go:86-201 | conservation, counters, batch sizes and the content of the table hold in every reachable state, panic included |
| `MysqlWriter.RowsAreConserved` | reader_modules/mod_log_mysql/record_writer.go:86-180 | flushed batches, current batch and queue are the accepted rows in order; batches have 1 to BatchSize rows; WRITE_BATCH_SIZE and SEND_MYSQL_FAILED count what they say |
| `MysqlWriter.CountersAddUp` | reader_modules/mod_log_mysql/mod_log_mysql.go:150-176 | between Update calls RECEIVED_REQ = CONVERT_FAILED + SENT_TO_MYSQL + SENT_MYSQL_CHN_FULL, and SENT_TO_MYSQL is the rows accepted |
| `MysqlWriter.TableHoldsAppliedBatches` | reader_modules/mod_log_mysql/record_writer.go:157-201 | whatever was retried, lost or given up, the table holds the applied batches once each, in order |
| `MysqlWriter.BatchingIsTransparent` | reader_modules/mod_log_mysql/record_writer.go:114-152 | any schedule of size, timer and drain flushes leaves the table that upserting row by row leaves |
| `MysqlWriter.OfferedIsAccepted` | reader_modules/mod_log_mysql/record_writer.go:86-93 | if no row found the queue full, all rows offered were accepted, in that order |
| `MysqlWriter.RefusedRowSinksItsBatch` | tests/integration/implementation/scenario-LR03-mysql-write/testdata/ddl/bfe_ai_request_log.sql:11-14 | no batch with a row that has NULL for host or time is ever applied or acknowledged; ToRow builds no such row |
| `FieldMapper.RowsAreStorable` | reader_modules/mod_log_mysql/field_mapper.go:215-280 | with a host id and a timestamp, which every log entry has, neither of these columns of a row is NULL, so the table never refuses a row that ToRow built |
| `MysqlWriter.WriterCanPanicIff` | reader_modules/mod_log_mysql/record_writer.go:159-166 | the writer can panic if and only if MaxRetries >= 4 |
| `MysqlWriter.NothingIsWrittenAfterAPanic` | reader_modules/mod_log_mysql/record_writer.go:103-109 | after a panic table and batch never change again while the queue only grows |
| `MysqlWriter.WriterCanGoOn` | reader_modules/mod_log_mysql/record_writer.go:126-152 | after Close the writer always has a next step until it returns |
| `MysqlWriter.ShutdownDrains` | reader_modules/mod_log_mysql/record_writer.go:128-141 | from any state, unless it is already leaving with rows in the queue, with nothing enqueued any more and no panic, the writer has a bounded number of steps left until it returns, and then every accepted row was flushed; other goroutines may go on counting |
| `RecordWriter.RecordWriter.Enqueue` | reader_modules/mod_log_mysql/record_writer.go:86-93 | accepts exactly if the queue has room |
| `RecordWriter.RecordWriter.Update` | reader_modules/mod_log_mysql/mod_log_mysql.go:150-176 | the converted request rows go into the queue in order as long as there is room; logs and requests received, failed, sent and dropped are counted exactly |
| `RecordWriter.RecordWriter.WriteBatch` | reader_modules/mod_log_mysql/record_writer.go:183-201 | the statement and the arguments sent make the database upsert exactly the rows of the batch, in order, unless one of them cannot be stored or the transaction fails; success is reported if and only if it was committed |
| `RecordWriter.RecordWriter.WriteBatchWithRetry` | reader_modules/mod_log_mysql/record_writer.go:157-180 | attempts stop at the first success, after MaxRetries + 1, or with a panic at the fifth; 0, 200, 600 or 1400 ms are slept for 1 to 4 attempts; rows with full keys are in the table once if any attempt was applied, otherwise not at all |
| `RecordWriter.RecordWriter.TakeRow` | reader_modules/mod_log_mysql/record_writer.go:143-147 | takes the oldest row; a flush is due exactly if the batch has reached BatchSize |
| `RecordWriter.RecordWriter.SelectOnce` | reader_modules/mod_log_mysql/record_writer.go:126-152 | the row case takes the oldest row, and the batch is flushed exactly if that fills it; a tick flushes what there is, if anything; the stop case ends it exactly if it is picked after Close; nothing else moves |
| `RecordWriter.RecordWriter.DrainOnce` | reader_modules/mod_log_mysql/record_writer.go:130-141 | one round of the drain loop takes the oldest row and flushes the batch exactly if that fills it, or, exactly if the queue is empty, flushes the rest and ends |
| `RecordWriter.RecordWriter.Recover` | reader_modules/mod_log_mysql/record_writer.go:103-109 | a panic is counted as one failure and ends the writer |
| `RecordWriter.RecordWriter.WriteLoop` | reader_modules/mod_log_mysql/record_writer.go:102-153 | for any number of turns the writer does in each what is due; rows leave in order, in batches of 1 to BatchSize, none lost, and none waits longer than the next row says; no panic if MaxRetries <= 3 |
| `RecordWriter.RowsAreFlushedOnTime` | reader_modules/mod_log_mysql/record_writer.go:126-152 | bounded delay: once the row case has been picked as often as there are rows up to and including a given one, and then a tick, that row has been flushed MaxRetries + 1 turns later, unless the writer has panicked |
| `RecordWriter.RecordWriter.Close` | reader_modules/mod_log_mysql/record_writer.go:204-206 | the writer is told to stop; nothing else changes |
| `RecordWriter.ClosingEnds` | reader_modules/mod_log_mysql/record_writer.go:128-141 | once Close was seen and nothing more is enqueued, so many turns as there is work left end the loop, with every accepted row flushed unless there was a panic |
| `KafkaMachine.EveryRunKeepsInv` | reader_modules/mod_kafka/kafka_producer.go:95-180 | conservation, dead letters, counters and batch sizes hold in every reachable state |
| `KafkaMachine.MessagesAreConserved` | reader_modules/mod_kafka/kafka_producer.go:95-180 | writes, batch and channel are the accepted messages in order; SEND_KAFKA_FAILED counts messages in failed writes; each failed batch is offered whole and once to the dead letters, if there are any |
| `KafkaMachine.CountersAddUp` | reader_modules/mod_kafka/mod_kafka.go:149-170 | with no Update under way, accepted = SENT_TO_KAFKA - SENT_KAFKA_CHN_FULL |
| `KafkaMachine.SenderCanGoOn` | reader_modules/mod_kafka/kafka_producer.go:140-162 | after Close the sender always has a next step until it returns |
| `KafkaMachine.ShutdownDrains` | reader_modules/mod_kafka/kafka_producer.go:142-151 | from any state, unless it is already leaving with messages in the channel, with nothing sent any more, the sender has a bounded number of steps left until it returns, and then every accepted message was in a main write; other goroutines may go on counting |
| `KafkaMachine.LastFlushIsBounded` | reader_modules/mod_kafka/kafka_producer.go:57-57 | whenever Close is called, in the middle of a flush too, no later write has more than 3 * BatchSize - 1 messages if nothing is sent any more |
| `KafkaMachine.LastFlushBoundIsReached` | reader_modules/mod_kafka/kafka_producer.go:142-151 | any 3 * BatchSize - 1 messages can end up in one write |
| `KafkaProducer.KafkaProducer.Send` | reader_modules/mod_kafka/kafka_producer.go:95-102 | accepts exactly if the channel has room, otherwise drops and counts |
| `KafkaProducer.KafkaProducer.Update` | reader_modules/mod_kafka/mod_kafka.go:149-170 | messages go into the channel in order as long as there is room; logs, requests and failed conversions are counted exactly; SENT_TO_KAFKA counts all messages, SENT_KAFKA_CHN_FULL the dropped ones |
| `KafkaProducer.KafkaProducer.Flush` | reader_modules/mod_kafka/kafka_producer.go:118-138 | one write of the whole batch; a failed one is counted message by message and offered to the dead letters if there are any |
| `KafkaProducer.KafkaProducer.WriteToDLQ` | reader_modules/mod_kafka/kafka_producer.go:166-180 | the batch is offered whole, a failure is counted |
| `KafkaProducer.KafkaProducer.SelectOnce` | reader_modules/mod_kafka/kafka_producer.go:140-162 | the message case takes the oldest message, and the batch is written exactly if that fills it; a tick writes what there is, if anything; the done case ends it exactly if it is picked after Close; nothing else moves |
| `KafkaProducer.KafkaProducer.DrainOnce` | reader_modules/mod_kafka/kafka_producer.go:142-151 | one round takes the oldest message without writing, or, exactly if the channel is empty, writes the whole batch and ends |
| `KafkaProducer.KafkaProducer.SendLoop` | reader_modules/mod_kafka/kafka_producer.go:111-163 | for any number of turns the sender does in each what is due; nothing is lost, failures are counted and dead letters are the failed batches; no message waits longer than the next row says |
| `KafkaProducer.MessagesAreWrittenOnTime` | reader_modules/mod_kafka/kafka_producer.go:140-162 | bounded delay: once the message case has been picked as often as there are messages up to and including a given one, and then a tick, that message is in a main write in the turn after |
| `KafkaProducer.KafkaProducer.Close` | reader_modules/mod_kafka/kafka_producer.go:183-185 | the sender is told to stop; nothing else changes |
| `KafkaProducer.ClosingEnds` | reader_modules/mod_kafka/kafka_producer.go:142-151 | once the cancellation was seen and nothing more is sent, so many turns as there is work left end the loop, with every accepted message in a main write |
| `FieldMapper.ExtractTags` | reader_modules/mod_fields/field_registry.go:699-722 | levels 1 to 5 hold the last tag of that level, or the empty object; other levels change nothing |
| `FieldMapper.LastTagIsLast` | reader_modules/mod_fields/field_registry.go:708-718 | what a level holds is the last tag in the list with that level, and nothing exactly if there is none |
| `FieldMapper.Columns` | reader_modules/mod_log_mysql/field_mapper.go:168-174 | the column names in writing order |
| `FieldMapper.ToRow` | reader_modules/mod_log_mysql/field_mapper.go:215-280 | every cell shows its field: a non-empty string as that text and an empty one as NULL, numbers as they are, true and false as 1 and 0, a time below 2^63 as that time, JSON as the marshalled text, name and value of the last tag of the level; the row fails exactly if some column cannot be marshalled |
| `FieldMapper.KeyIsFullIff` | reader_modules/mod_log_mysql/field_mapper.go:47-52 | a row is deduplicated if and only if host id, API key and model are non-empty and there is a timestamp |
| `FieldMapper.KeysAgreeIff` | reader_modules/mod_log_mysql/field_mapper.go:47-52 | two rows with full keys share a key if and only if host id, time, API key and requested model of the log entries agree |
| `FieldMapper.ReplayDuplicatesRequestsWithoutKey` | reader_modules/mod_log_mysql/field_mapper.go:266-276 | a request without an API key is stored again by every replay |
| `Statement.Prepare` | reader_modules/mod_log_mysql/record_writer.go:54-66 | the three parts of the statement, with an update clause over all columns |
| `Statement.StatementReads` | reader_modules/mod_log_mysql/record_writer.go:54-66 | read back as a database reads it, the statement for n rows inserts into the table, names the columns in order, has n rows of one placeholder for each, and sets every column to its own new value |
| `SqlText.PiecesOfJoin` | reader_modules/mod_log_mysql/record_writer.go:55-64 | round trip: column lists and update clauses that are joined with commas come apart into the same parts |
| `Statement.BuildStmt` | reader_modules/mod_log_mysql/record_writer.go:72-83 | n rows of placeholders, separated by commas, between head and tail |
| `Statement.Arguments` | reader_modules/mod_log_mysql/record_writer.go:184-187 | the arguments are the rows end to end |
| `Statement.ReceivedAsSent` | reader_modules/mod_log_mysql/record_writer.go:184-194 | round trip: cutting the arguments into rows again gives the rows of the batch |
| `Statement.BatchArrives` | reader_modules/mod_log_mysql/record_writer.go:183-194 | the statement for a batch, read as text, executed with the cells of its rows as arguments, upserts exactly these rows, every column of them, if they can be stored, and nothing otherwise |
| `Statement.PlaceholdersMatchArguments` | reader_modules/mod_log_mysql/record_writer.go:183-194 | for rows built by ToRow the statement has as many placeholders as there are arguments |
| `Statement.ArgumentOfCell` | reader_modules/mod_log_mysql/record_writer.go:184-187 | argument i * columns + j is what log entry i holds for column j |
| `IpText.PrintedAddressParsesBack` | reader_modules/mod_fields/field_registry.go:168-178 | every one of the 2^32 addresses is recovered from its text; only 0 prints as the empty string |
| `IpText.BackendInfoParsesBack` | reader_modules/mod_fields/field_registry.go:518-528 | "ip:port" determines address and port |
| `EndToEnd.RowsOfGrownLog` | bfe_log_reader/pb_log_reader.go:104-109 | a log that has grown yields the rows it yielded before and then some |
| `EndToEnd.TableAfterAnyRun` | reader_modules/mod_log_mysql/record_writer.go:102-201 | after any run the table is the outcome of upserting some of the accepted rows |
| `EndToEnd.CleanPassOfFanOut` | bfe_log_reader/pb_log_reader.go:159-172 | a pass is clean if all goroutines have handed over their batches, in whatever order, no row found the queue full and every batch was applied |
| `EndToEnd.CleanPassRepairsAnyRun` | reader_modules/mod_log_mysql/record_writer.go:157-201 | whatever an earlier writer made of some of the rows, a pass that accepts and applies all of them, all with full keys, leaves the table it would have left alone |
| `EndToEnd.FirstFileIsDelivered` | bfe_log_reader/log_reader.go:113-137 | a daemon started with `-b` that is past the first file it opened, by reading or by a rotation, has parsed the whole of it before anything else |
| `EndToEnd.ReplayRepairsAnyRun` | doc/sys_design/overview.md:157-165 | whatever an earlier daemon did with the log (drops, lost acknowledgements, a panic, a crash), a clean pass from the beginning over the log, grown or not, leaves the table it would have left alone, given full keys; that is the table in file order if keys tell rows apart or the rows came in file order |
| `EndToEnd.ReplayDaemonRepairsAnyRun` | doc/sys_design/overview.md:157-165 | the same from the file to the table, for the reader started with `-b`, also if the log is rotated under it |

## Left out

- The b2log library is not part of the repository. The framing follows its description (24-byte header, magic, length limit, resync, incomplete frames kept, compressed records skipped), with the field positions of the sample log bfe_log_reader/test_data/pb_access_1.log; that a compressed record is skipped by its compressed length is an assumption.
- Protobuf, JSON, kafka-go and the MySQL driver: arbitrary functions or outcomes, decided by the schedule.
- Configuration, `ParseModule`, the module registry, the web monitor, signals, flags and console output: single-branch wiring. Batch size, queue size and retries are taken to be at least 1.
- The columns of the table other than the four key columns, and the bulk of the field registry: `FieldMapper` is proved for every list of columns that begins with the key.
- Time: a ticker may fire at any step, a sleep only adds to the backoff total.
- `RecordWriter.RecordWriter.WriteBatch`: the database is taken to read the text as `SqlText.ReadInsert` does, which knows this one form of insert, and to refuse a row only for a NULL in the columns of host and time; table and column names are taken to be free of blanks, parentheses, commas, equality signs and question marks, and columns to be distinct.
- Comparison of keys is by value; the collation of the key columns, column lengths and the rounding of times are not modelled.
- Inode reuse, inode 0 (Windows), truncation in place, and a writer that appends to a file already renamed: files are numbered in the order they are created and only the newest grows.
- `Follow.FollowFrom`: leaves open how many turns the reads of one poll take.
- `Tail.TailLastN`: with a leftover between windows the theorems about its answer cover two windows (a leftover that makes no difference, a last record that is unfinished, a window that starts inside a record); without one, logs of any size. Errors of seeking and reading a window are not modelled, those of opening, stat and emit are in `Follow.PblogTail`.
- `B2log.CompressedRecordIsSkipped`: the count of errors that the design asks for is kept by the library and not modelled.
- `Cat.PblogCat`: errors of opening, seeking and reading are not modelled (a read error while `cat` is running clears the buffer under the parser); the file may grow in the machine but not in the method.
- Slices that share memory: `append` to a leftover is modelled as concatenation, which is right as long as the leftover is the end of its buffer.
- `PbLogReader.PbLogReader.Start` hands out the batches; with no modules bound the source drops them with an error message, which is not modelled.
- A panic inside `Update`, which the reader recovers from, and a panic of the producer.
- The last Kafka flush runs under a cancelled context: whether it succeeds is left open.
- `RecordWriter.RecordWriter.Update`: exact while no other goroutine moves; the interleaved case is covered by the machine, where every counter is a step of its own.
- `KafkaProducer.KafkaProducer.Update`: likewise.
