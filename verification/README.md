# A model of Redis 7.2.5's hard parts in Dafny

The project models six components of the Redis server that a Go streaming server ships with, and
the linked list under them, and proves what they promise.

- **Append-only persistence** (`Aof*.dfy`, `Sds*.dfy`). `AofProtocol` is a state machine whose steps
  end at the system calls that change the disk: feeding, flushing, starting, running, failing and
  finishing a background rewrite, turning the log on and off, crashing and restarting. A data set
  is its history, the executed commands with their databases. `AofOutcomes` says what its
  operations achieve: what a restart loads, what a flush and turning the log off make durable,
  where rewrites and starts end when everything works and when something fails. `AofManifest` has
  the edits of the manifest, `AofManifestText` and `AofManifestLines` its file, `AofReload` connects
  the two, `Sds` and `SdsQuotes` the quoting of its words, `AofCodec` and `AofLoader` the command
  format and the loader, `AofFlush` the write and flush loop over a file with a position of its own,
  `AofRewrite` the emitter that rebuilds objects.
- **ACL selectors** (`Acl*.dfy`). The bitmap of sixteen words, the table of first arguments, and
  the rule text that is edited in place and replayed by the describer. `AclRules` says what each
  kind of rule does to each bit and first argument.
- **Blocked clients** (`Blocked.dfy`). The two-way index between clients and keys with its
  counters, ready keys and lists.
- **Bit operations** (`Bit*.dfy`). BITCOUNT, BITPOS, BITFIELD and BITOP against bit-by-bit
  definitions.
- **CRC-64** (`Crc64.dfy`). Slice-by-8 in both byte orders against the bit-by-bit loop.
- **Background jobs** (`Bio.dfy`). Workers and submitters, interleaved at their locks.
- **Linked lists** (`Adlist.dfy`). Nodes and pointers against sequences.

`dafny verify dfyconfig.toml` checks everything.

## What the code does not keep

Some promises fail for some inputs. Each has a lemma with a concrete input and a lemma that says
exactly when the promise is kept.

- *File + buffer = everything fed.* The incr file of a rewrite is opened without O_APPEND, and
  `ftruncate` does not move the file position. After a short write is undone, the next flush that
  keeps a byte leaves a hole of zeros that the recorded size does not count
  (`AofFlush.HoleWithoutAppend`). The promise is kept at every point of a run if and only if the
  file is in append mode or no flush keeps a byte in that state (`AofFlush.Run`).
- *A crash can be recovered.* Turning the log on inside a transaction only schedules a rewrite. If
  a rewrite child from the time the log was off is still at work and a temporary incr file is left
  over, the child's work is put together with that file: commands are lost
  (`AofProtocol.StaleStartLoses`). `AofProtocol.StartIff` has the exact condition. The guarantee
  also needs that the flush at the start of a rewrite empties the buffer
  (`AofProtocol.LeftoverIff`) and that a manifest write that reports failure has not renamed its
  file (`AofProtocol.DirectorySyncFails`, `NewSyncHarmless`, `NewSyncOverwrites`).
- *The manifest can be read back.* A single quote in `appendfilename` is printed without quotes
  but read as one, and a line may be too long (`AofManifestText.QuoteBreaks`, `ReloadIff`,
  `AofReload.ReloadsIff`).
- *The rules of a user can be described.* A first argument with a blank or a quote is accepted and
  stored, but read back as something else (`Acl.BlankExample`). `Acl.DescribeIff` says when bitmap
  and first arguments are rebuilt, `Acl.PanicIff` when the describer goes through.
- *BITFIELD SET saturates at the nearest bound.* The comment above the signed check says that its
  distances are used only when they cannot overflow; for SET of a number far below the field's
  range they do, and SAT ends at the maximum (`BitField.LowestSaturates`, `BitField.SetIff`).

Where the code and its comments disagree the model follows the code.

## Model

| member | source | states |
|---|---|---|
| `AofProtocol.CrashSafe` | redis-bin/redis-7.2.5/src/aof.c:2427-2495 | At every point of every run of the modelled steps (feed, flush, rewrite start, fork, child end, finish, failure, cleanup, turning the log on and off, crash and restart), with the log on, loading the manifest on disk, its base and its incr files in order gives the data set in memory short of exactly the commands still in `aof_buf`; this holds whatever database the loaders of the run entered the files in, and whatever other database this loader enters them in |
| `AofProtocol.LiveKept` | redis-bin/redis-7.2.5/src/aof.c:2584-2744 | No step of a run unlinks, renames over or truncates a file that the manifest on disk names as base or incr; the only change is an append through the open file |
| `AofProtocol.EachFileAlone` | redis-bin/redis-7.2.5/src/aof.c:1322-1361 | Every live incr file, decoded by itself, runs each command against the same database whatever database is current at its start |
| `AofProtocol.RunKeeps` | redis-bin/redis-7.2.5/src/aof.c:951-1019 | The invariant behind the crash guarantee holds at every point of every run, for every database a loader may start in |
| `AofProtocol.RestartSame` | redis-bin/redis-7.2.5/src/aof.c:1651-1774 | A restart gives the same server whatever database the loader starts in; which one is `AofOutcomes.RestartLoads` |
| `AofProtocol.StepKeeps` | redis-bin/redis-7.2.5/src/aof.c:792-855 | Every allowed step keeps the invariant, in every phase of every operation |
| `AofProtocol.LogRecovers` | redis-bin/redis-7.2.5/src/aof.c:1651-1774 | Base, then incr files, then the buffer give the data set in memory |
| `AofProtocol.CommitKeeps` | redis-bin/redis-7.2.5/src/aof.c:2662-2700 | Installing the new manifest at the end of a rewrite: the log it describes starts with the child's data set and leads to the data set in memory |
| `AofProtocol.FeedKeeps` | redis-bin/redis-7.2.5/src/aof.c:1322-1361 | SELECT is emitted exactly when the file needs it, also while a log waits for its first rewrite |
| `AofProtocol.RestartKeeps` | redis-bin/redis-7.2.5/src/aof.c:715-770 | After a crash and a start the invariant holds again, so everything said here holds of the restarted server |
| `AofProtocol.RestingKept` | redis-bin/redis-7.2.5/src/aof.c:978-1019 | A log that is off has no open file, or only an empty temporary incr file that a failed start left open |
| `AofProtocol.LeftoverIff` | redis-bin/redis-7.2.5/src/aof.c:2439-2446 | A rewrite that starts with part of the buffer unflushed is usable if and only if no command was left over |
| `AofProtocol.DirectorySyncFails` | redis-bin/redis-7.2.5/src/aof.c:2666-2684 | If the manifest write of the done handler fails after its rename, the handler unlinks the base that the manifest on disk names: the log cannot be loaded any more |
| `AofProtocol.NewSyncHarmless` | redis-bin/redis-7.2.5/src/aof.c:819-824 | The same failure when a new incr file is announced loses nothing at that point |
| `AofProtocol.NewSyncOverwrites` | redis-bin/redis-7.2.5/src/aof.c:2629-2660 | but a reachable later step renames a file with commands over one the manifest on disk names |
| `AofProtocol.StartIff` | redis-bin/redis-7.2.5/src/aof.c:978-1019 | Turning the log on while only scheduling the rewrite keeps the crash guarantee, for everything that can happen afterwards, if and only if there is no rewrite child, it has failed, no temporary incr file is left over, or that file is the open one and nothing was executed since the fork |
| `AofProtocol.StaleStartEnds` | redis-bin/redis-7.2.5/src/aof.c:2584-2744 | Otherwise steps are possible after which the log is on and the disk holds the child's data set and nothing later |
| `AofProtocol.StaleEndIff` | redis-bin/redis-7.2.5/src/aof.c:2584-2744 | At that end the guarantee holds exactly if nothing was executed since the fork |
| `AofProtocol.StaleStartReachable` | redis-bin/redis-7.2.5/src/aof.c:978-1019 | Allowed steps from the initial state lead to such a start |
| `AofProtocol.StaleStartLoses` | redis-bin/redis-7.2.5/src/aof.c:2584-2744 | A concrete run from the initial state loses a command: the log is on, the buffer empty, the disk has nothing |
| `AofOutcomes.RestartLoads` | redis-bin/redis-7.2.5/src/aof.c:1651-1774 | A restart loads the history that base and incr files give: the data set before the crash short of exactly the commands in `aof_buf`; buffer and child are gone, the disk is as it was, and the open file is the last incr file |
| `AofOutcomes.DataSet` | redis-bin/redis-7.2.5/src/aof.c:1322-1361 | Between two restarts the data set in memory is what it was, then every command executed, whatever rewrites start, end or fail and whether the log is on or off |
| `AofOutcomes.FeedLogs` | redis-bin/redis-7.2.5/src/aof.c:1322-1361 | A command is logged exactly if the log is on, or waits for its first rewrite with the child running; SELECT goes in front exactly if the command needs another database |
| `AofOutcomes.FlushDurable` | redis-bin/redis-7.2.5/src/aof.c:1066-1268 | A flush makes exactly the commands it moves durable; one of the whole buffer leaves nothing a crash could lose |
| `AofOutcomes.StopDurable` | redis-bin/redis-7.2.5/src/aof.c:953-974 | After turning the log off the files give the data set short of exactly the commands the last flush could not move; child, its file and the buffer are gone |
| `AofOutcomes.RewriteCompletes` | redis-bin/redis-7.2.5/src/aof.c:2584-2744 | From every state in which a rewrite can start, steps lead to a log of one base with the data set and one empty incr file, the next numbers in both manifests, and every file named before gone |
| `AofOutcomes.HistoryDeleted` | redis-bin/redis-7.2.5/src/aof.c:670-711 | All history files are unlinked and the manifest forgets them |
| `AofOutcomes.StartCompletes` | redis-bin/redis-7.2.5/src/aof.c:978-1019 | Turning the log on leads to the same, whatever child or temporary file the time before left over |
| `AofOutcomes.StartFails` | redis-bin/redis-7.2.5/src/aof.c:978-1019 | If the new incr file cannot be opened the log stays as it was, or is off again if it was being turned on |
| `AofOutcomes.ForkFails` | redis-bin/redis-7.2.5/src/aof.c:2427-2495 | A fork that fails leaves the log as it was, or off if it was being turned on |
| `AofOutcomes.ChildFails` | redis-bin/redis-7.2.5/src/aof.c:2701-2744 | After a child that failed a running log goes on in its file with its buffer; a log that waits drops buffer and temporary file and waits on; the manifests stay |
| `AofOutcomes.CommitFails` | redis-bin/redis-7.2.5/src/aof.c:2662-2684 | If the manifest cannot be written at the end of a rewrite, the renamed base is removed and log, buffer and manifests are what they were |
| `AofOutcomes.CommitFailsWaiting` | redis-bin/redis-7.2.5/src/aof.c:2662-2684 | The same for a log being turned on: both renamed files are removed and it waits on |
| `AofManifest.ManifestObject.GetNewBase` | redis-bin/redis-7.2.5/src/aof.c:429-448 | A new base with the next number; the old base goes to the head of the history |
| `AofManifest.ManifestObject.GetNewIncr` | redis-bin/redis-7.2.5/src/aof.c:457-466 | A new incr file with the next number at the end of the list |
| `AofManifest.ManifestObject.GetLastIncr` | redis-bin/redis-7.2.5/src/aof.c:475-487 | The last incr file, or a new one if there is none |
| `AofManifest.ManifestObject.MarkRewrittenAsHistory` | redis-bin/redis-7.2.5/src/aof.c:494-524 | The walk from the tail moves all incr files but the open one, in order, in front of the history |
| `AofManifest.ManifestObject.Dup` | redis-bin/redis-7.2.5/src/aof.c:393-410 | A copy of the lists and the counters |
| `AofManifest.NewBaseValid` | redis-bin/redis-7.2.5/src/aof.c:429-448 | The types, the numbering and the disjointness of live and history files are kept |
| `AofManifest.NewIncrValid` | redis-bin/redis-7.2.5/src/aof.c:457-466 | Incr numbers strictly increase up to the counter |
| `AofManifest.MarkRewrittenValid` | redis-bin/redis-7.2.5/src/aof.c:494-524 | No history file is also a base or incr file |
| `AofManifest.FinishedRewrite` | redis-bin/redis-7.2.5/src/aof.c:2596-2664 | After a finished rewrite: one new base, the file being written, and as history the rewritten incr files in order, the old base, the old history |
| `AofManifest.RenderInjective` | redis-bin/redis-7.2.5/src/aof.c:457-472 | Different files have different names |
| `AofManifest.NameFormat` | redis-bin/redis-7.2.5/src/aof.c:429-472 | The names: `.N.base.rdb` or `.N.base.aof`, `.N.incr.aof`, and `temp-` and `.incr` around the prefix |
| `AofManifestText.Print` | redis-bin/redis-7.2.5/src/aof.c:194-222 | The text is the lines of base, history and incr files, in this order |
| `AofManifestText.Load` | redis-bin/redis-7.2.5/src/aof.c:258-384 | The line loop computes the loading function, with every error branch |
| `AofManifestText.ParseFormatted` | redis-bin/redis-7.2.5/src/aof.c:123-136 | A printed line with a readable name is read back as the same entry |
| `AofManifestText.ParseRawQuote` | redis-bin/redis-7.2.5/src/aof.c:258-384 | A name with an unquoted single quote is refused or gives another name |
| `AofManifestText.ParseTooLong` | redis-bin/redis-7.2.5/src/aof.c:258-384 | A line over the limit is refused |
| `AofManifestText.ReloadIff` | redis-bin/redis-7.2.5/src/aof.c:258-384 | Printing and loading is the identity if and only if no name has an unquoted single quote and no line is over the limit |
| `AofManifestText.QuoteBreaks` | redis-bin/redis-7.2.5/src/aof.c:123-136 | A concrete manifest that does not come back: an incr file named `it's` |
| `AofManifestLines.LoadsIff` | redis-bin/redis-7.2.5/src/aof.c:258-384 | Any file of readable entries is loaded if and only if it has an entry, at most one base and increasing incr numbers; then the lists are the entries of each type in order and the counters the last numbers |
| `AofManifestLines.LineReads` | redis-bin/redis-7.2.5/src/aof.c:309-336 | A line of any words: the last `file`, `seq` and `type` decide, keys up to case, other pairs are ignored, the number 0 is refused |
| `AofManifestLines.LineRefused` | redis-bin/redis-7.2.5/src/aof.c:309-336 | Fewer than six words, an odd number, a path as a name or a missing key refuse the line |
| `AofManifestLines.PathsRefused` | redis-bin/redis-7.2.5/src/aof.c:317-323 | A name with a slash or backslash refuses the line, wherever it stands |
| `AofManifestLines.BlanksIgnored` | redis-bin/redis-7.2.5/src/aof.c:303-307 | Blanks around a line do not matter; a line of blanks is refused |
| `AofManifestLines.CommentSkipped` | redis-bin/redis-7.2.5/src/aof.c:295-296 | A comment line is skipped |
| `AofManifestLines.LineStops` | redis-bin/redis-7.2.5/src/aof.c:340-362 | A refused line or an unknown type refuses the file |
| `AofManifestLines.NoLine` | redis-bin/redis-7.2.5/src/aof.c:278-301 | So do an empty file and a file whose first line has no end |
| `AofManifestLines.LineFormat` | redis-bin/redis-7.2.5/src/aof.c:123-136 | The bytes of a printed line |
| `AofReload.ReloadsIff` | redis-bin/redis-7.2.5/src/aof.c:258-384 | For the protocol's manifests: a starting server reads the printed lists and the counters of their last files if and only if the lines fit and `appendfilename` has no single quote or is printed in quotes |
| `AofReload.NameReads` | redis-bin/redis-7.2.5/src/aof.c:429-466 | The name of a numbered file is read back exactly under that condition on `appendfilename` |
| `AofReload.ShownInjective` | redis-bin/redis-7.2.5/src/aof.c:194-222 | No other manifest is shown in the same way |
| `Sds.SplitArgs` | redis-bin/redis-7.2.5/src/sds.c:1008-1116 | The argument splitter computes the token function, quoting errors included |
| `Sds.ReadRepr` | redis-bin/redis-7.2.5/src/sds.c:912-936 | A string in double quotes is read back as one token, whatever bytes it holds |
| `Sds.ReadBare` | redis-bin/redis-7.2.5/src/sds.c:1008-1116 | An unquoted token without blanks and quotes is read back |
| `Sds.SplitJoin` | redis-bin/redis-7.2.5/src/sds.c:945-956 | A line of printed tokens splits into the tokens |
| `Sds.RawQuoteLost` | redis-bin/redis-7.2.5/src/sds.c:1008-1116 | A token printed without quotes although it has a single quote is never read back |
| `SdsQuotes.DoubleQuoted` | redis-bin/redis-7.2.5/src/sds.c:1025-1060 | A word with a part in double quotes, for every sequence of plain characters, letter escapes and hexadecimal escapes: what it stands for, and an error exactly if the quote is not closed or not followed by a blank or the end |
| `SdsQuotes.SingleQuoted` | redis-bin/redis-7.2.5/src/sds.c:1061-1076 | The same for single quotes |
| `SdsQuotes.PlainWordEnds` | redis-bin/redis-7.2.5/src/sds.c:1077-1097 | A plain word ends at a blank or at the end |
| `SdsQuotes.EscapeFormat` | redis-bin/redis-7.2.5/src/sds.c:912-936 | How each byte is printed inside quotes |
| `SdsQuotes.PrintedQuoted` | redis-bin/redis-7.2.5/src/sds.c:945-956 | A string is printed in quotes exactly if it holds a byte that is not printable, a blank, a double quote or a backslash |
| `AofCodec.CatCommand` | redis-bin/redis-7.2.5/src/aof.c:1270-1293 | The writer appends the encoding of the command |
| `AofCodec.NextCommand` | redis-bin/redis-7.2.5/src/aof.c:1471-1573 | The reader of one command computes the reading function, with every error |
| `AofCodec.NextArgs` | redis-bin/redis-7.2.5/src/aof.c:1508-1537 | The loop over the arguments of one command |
| `AofCodec.ReadWritten` | redis-bin/redis-7.2.5/src/aof.c:1471-1573 | At the start of a written command of binary-safe arguments: read back whole, or a short read if it is cut anywhere |
| `AofCodec.ReadBulk` | redis-bin/redis-7.2.5/src/aof.c:1508-1537 | One bulk string is read back whole, or the end of the file is noticed |
| `AofCodec.WireFormat` | redis-bin/redis-7.2.5/src/aof.c:1270-1293 | The bytes of a command: `*`, the count, CR LF, then the arguments |
| `AofCodec.BulkFormat` | redis-bin/redis-7.2.5/src/aof.c:1281-1291 | The bytes of an argument: `$`, the length, CR LF, the argument, CR LF |
| `AofCodec.DecimalFormat` | redis-bin/redis-7.2.5/src/aof.c:1275-1291 | Numbers are printed in decimal |
| `AofCodec.ReadNoBulk` | redis-bin/redis-7.2.5/src/aof.c:1508-1518 | An argument that does not start with `$` is a format error |
| `AofLoader.LoadSingleFile` | redis-bin/redis-7.2.5/src/aof.c:1397-1648 | The command loop computes the loading function, with MULTI, truncation and format errors |
| `AofLoader.LoadPrefix` | redis-bin/redis-7.2.5/src/aof.c:1471-1628 | For any byte prefix of any log: exactly the commands wholly inside it are processed; it is accepted exactly if it stops behind a command outside MULTI; otherwise it is refused, or cut and accepted if that is configured and works; the cut is behind the last whole command, or before the last MULTI if the file stops behind a command inside one |
| `AofLoader.LoadAll` | redis-bin/redis-7.2.5/src/aof.c:1471-1628 | The whole log comes back |
| `AofLoader.LoadJunk` | redis-bin/redis-7.2.5/src/aof.c:1494-1495 | Behind any log, a byte that starts neither a command nor an annotation refuses the file |
| `AofLoader.LoadNoArgs` | redis-bin/redis-7.2.5/src/aof.c:1496-1498 | So does a command without a number of arguments |
| `AofLoader.LoadUnknown` | redis-bin/redis-7.2.5/src/aof.c:1538-1547 | So does a command that is not in the command table |
| `AofLoader.LoadAnnotation` | redis-bin/redis-7.2.5/src/aof.c:1494-1494 | An annotation line between commands is skipped |
| `AofLoader.CutBeforeMulti` | redis-bin/redis-7.2.5/src/aof.c:1550-1589 | An unfinished transaction is cut off before the MULTI that opened it, unless another MULTI was queued in it |
| `AofLoader.UnfinishedMulti` | redis-bin/redis-7.2.5/src/aof.c:1550-1589 | Of an unfinished MULTI nothing is executed and everything is queued |
| `AofLoader.FinishedMulti` | redis-bin/redis-7.2.5/src/aof.c:1550-1563 | A finished MULTI block runs as a whole |
| `AofFlush.Log.WriteAll` | redis-bin/redis-7.2.5/src/aof.c:1028-1045 | Short and interrupted writes are continued; the bytes taken are a prefix, written at the file position |
| `AofFlush.Log.WriteBuffer` | redis-bin/redis-7.2.5/src/aof.c:1130-1234 | The error handling of a write: what is in the file, the buffer and the counters after a full, short or failed write and a succeeding or failing truncate |
| `AofFlush.Log.Flush` | redis-bin/redis-7.2.5/src/aof.c:1066-1268 | For every answer of the system the whole new state; file + buffer is unchanged if and only if the file position was right or no byte was kept; the recorded size is the file length under the same condition; with `always`, returning means written and synced; when the write is postponed for a background sync, when the server exits, and what `everysec` syncs are exact |
| `AofFlush.Log.TryFsync` | redis-bin/redis-7.2.5/src/aof.c:1236-1268 | `always` syncs now, `everysec` hands a sync to the background exactly if more than a second has passed and none is running, `no` never; what each does to the fsync offset and the time of the last sync |
| `AofFlush.Log.SyncIdle` | redis-bin/redis-7.2.5/src/aof.c:1071-1095 | With an empty buffer a sync is tried exactly if one is due |
| `AofFlush.Log.WriteOut` | redis-bin/redis-7.2.5/src/aof.c:1130-1234 | The write of a flush, with the exact condition for the server to exit |
| `AofFlush.TakenIs` | redis-bin/redis-7.2.5/src/aof.c:1028-1045 | How many bytes a sequence of answers of the system takes |
| `AofFlush.Log.Feed` | redis-bin/redis-7.2.5/src/aof.c:1347-1361 | The command is appended to the buffer |
| `AofFlush.Run` | redis-bin/redis-7.2.5/src/aof.c:1066-1268 | At every point of a run of feeds and flushes file + buffer is all that was fed, the recorded size is the file length and the fsync offset is within it, if and only if the file is in append mode or no byte is kept by a flush while the last short write was undone |
| `AofFlush.HoleWithoutAppend` | redis-bin/redis-7.2.5/src/aof.c:810-817 | A concrete run without O_APPEND that leaves two zero bytes in the file |
| `AofFlush.MovedBytes` | redis-bin/redis-7.2.5/src/aof.c:1130-1234 | Moving bytes from buffer to file keeps their concatenation exactly if the position is the end of the file or nothing moves |
| `AofRewrite.Emit` | redis-bin/redis-7.2.5/src/aof.c:1796-1834 | The loop that emits an object in chunks writes headers whose counts are the arguments that follow |
| `AofRewrite.RewriteObject` | redis-bin/redis-7.2.5/src/aof.c:1796-1866 | Strings, lists, sets and hashes, each with its command |
| `AofRewrite.CommandIs` | redis-bin/redis-7.2.5/src/aof.c:1796-1866 | Command n for an object: SET with the value, or RPUSH, SADD or HMSET with items 64 n and on, at most 64, in order |
| `AofRewrite.FramesAre` | redis-bin/redis-7.2.5/src/aof.c:2255-2312 | SELECT in front of a database, PEXPIREAT behind an object that expires |
| `AofRewrite.Rewrite` | redis-bin/redis-7.2.5/src/aof.c:2237-2338 | The file is the encoding of the commands of all databases |
| `AofRewrite.ReplayObject` | redis-bin/redis-7.2.5/src/aof.c:1976-2008 | Replaying what was emitted for an object under a fresh key rebuilds it, list order kept, for every chunk limit of at least 1 |
| `AofRewrite.ReplayRewrite` | redis-bin/redis-7.2.5/src/aof.c:2237-2338 | Replaying a rewrite from nothing gives every key of every database its value and its expire time, and nothing else |
| `AofRewrite.LoadRewritten` | redis-bin/redis-7.2.5/src/aof.c:2237-2338 | The same from bytes, through the loader |
| `AclText.RemoveRule` | redis-bin/redis-7.2.5/src/acl.c:550-592 | The memmove loop over one buffer equals dropping every rule whose name is the new name or starts with it and a bar, and joining the rest with single spaces |
| `AclText.Scan` | redis-bin/redis-7.2.5/src/acl.c:550-592 | One round: which rule, whether it goes, what is copied over what |
| `AclText.MoveDown` | redis-bin/redis-7.2.5/src/acl.c:576-585 | `memmove` towards the front |
| `AclText.SplitRules` | redis-bin/redis-7.2.5/src/acl.c:755-762 | The argument splitter gives back the rules of a text of clean rules |
| `AclText.SplitBehind` | redis-bin/redis-7.2.5/src/acl.c:755-762 | With any last rule it gives the clean ones, then what it makes of the last one alone |
| `Acl.LookupName` | redis-bin/redis-7.2.5/src/server.c:3133-3175 | What is found under a name has that name, up to case; a bar makes the difference between a command and a subcommand |
| `Acl.Reparse` | redis-bin/redis-7.2.5/src/acl.c:1097-1174 | The text kept for an accepted rule is the rule in lower case and reads as the same rule |
| `Acl.PermitEffect` | redis-bin/redis-7.2.5/src/acl.c:608-642 | A rule does to each bit and each first argument what its effect says |
| `Acl.Covered` | redis-bin/redis-7.2.5/src/acl.c:550-592 | A rule that is dropped has no effect where the new rule has none |
| `Acl.UpdateValue` | redis-bin/redis-7.2.5/src/acl.c:596-604 | Editing the text does to every bit and first argument what the rule does |
| `Acl.SetGood` | redis-bin/redis-7.2.5/src/acl.c:1097-1174 | Every rule without blanks and quotes, accepted or refused, keeps text and permissions together |
| `Acl.SetAllGood` | redis-bin/redis-7.2.5/src/acl.c:1097-1174 | So does every list of them, from a new selector |
| `Acl.DescribeSafe` | redis-bin/redis-7.2.5/src/acl.c:733-786 | Replaying the text from `+@all` or `-@all` is accepted and rebuilds the bitmap, the first arguments and the text: the panic is unreachable |
| `Acl.DescribeIff` | redis-bin/redis-7.2.5/src/acl.c:733-786 | After one more accepted rule, replaying rebuilds bitmap and first arguments if and only if the rule has no blank and no quote |
| `Acl.PanicIff` | redis-bin/redis-7.2.5/src/acl.c:755-783 | After one more accepted rule the describer goes through without assertion or panic if and only if the rule, split as a line, gives accepted rules that do to the bitmap what the rule did |
| `Acl.BlankExample` | redis-bin/redis-7.2.5/src/acl.c:755-762 | A concrete failure: `+get\|a b` is accepted, then the describer finds a rule it refuses |
| `AclRules.CommandRule` | redis-bin/redis-7.2.5/src/acl.c:1097-1122 | `+name` and `-name`: the bits of the command and its subcommands take the value, its first arguments are forgotten, nothing else changes |
| `AclRules.SubRule` | redis-bin/redis-7.2.5/src/acl.c:1123-1167 | A rule that allows or forbids a subcommand sets its bit and no other |
| `AclRules.ArgRule` | redis-bin/redis-7.2.5/src/acl.c:1123-1167 | A rule that allows a first argument allows it, up to case, and changes no bit; one that forbids it is refused |
| `AclRules.CategoryRule` | redis-bin/redis-7.2.5/src/acl.c:629-642 | `+@category` and `-@category`: exactly the bits of commands in the category, of subcommands in it and of subcommands of its commands |
| `AclRules.CategoryCommand` | redis-bin/redis-7.2.5/src/acl.c:629-642 | A command's bit and first arguments go by its own categories |
| `AclRules.CategorySub` | redis-bin/redis-7.2.5/src/acl.c:629-642 | A subcommand's bit goes by its own categories and its command's |
| `AclRules.AllRule` | redis-bin/redis-7.2.5/src/acl.c:1027-1040 | `allcommands`, `+@all`, `nocommands` and `-@all`: all bits, text and first arguments from nothing |
| `AclRules.RefusedRules` | redis-bin/redis-7.2.5/src/acl.c:1097-1174 | Rules that are refused change nothing |
| `AclRules.RefusedParts` | redis-bin/redis-7.2.5/src/acl.c:1123-1167 | Nothing behind the bar is EINVAL, a first argument of a subcommand ECHILD, an unknown subcommand ENOENT |
| `AclRules.TextMinimal` | redis-bin/redis-7.2.5/src/acl.c:550-604 | In the text of a good selector no name occurs twice, and no subcommand or first argument stands before its command |
| `AclRules.TextAfter` | redis-bin/redis-7.2.5/src/acl.c:596-604 | After one more rule the text is the rules it does not cover, and then the rule in lower case |
| `AclRules.DescribedRebuilds` | redis-bin/redis-7.2.5/src/acl.c:733-786 | What the describer returns, given word by word to a new selector, gives the same permissions |
| `Acl.CommandIds.GetCommandId` | redis-bin/redis-7.2.5/src/acl.c:1501-1526 | Ids are stable, distinct per lower-case name and never the reserved one |
| `AclBitmap.PackedBit` | redis-bin/redis-7.2.5/src/acl.c:504-545 | Setting one command's bit in the words changes no other command's |
| `AclBitmap.SameWords` | redis-bin/redis-7.2.5/src/acl.c:771-783 | Comparing the words compares the bits |
| `AclSelector.SelectorObject.constructor` | redis-bin/redis-7.2.5/src/acl.c:314-331 | A new selector has no permissions |
| `AclSelector.SelectorObject.SetCommandBit` | redis-bin/redis-7.2.5/src/acl.c:536-545 | One bit of the words changes; ids out of range change nothing |
| `AclSelector.SelectorObject.ChangePerm` | redis-bin/redis-7.2.5/src/acl.c:608-621 | The bits of a command and its subcommands, and its first arguments are forgotten |
| `AclSelector.SelectorObject.ChangeCategory` | redis-bin/redis-7.2.5/src/acl.c:629-642 | Exactly the bits of the category's commands and subcommands |
| `AclSelector.SelectorObject.AddFirstArg` | redis-bin/redis-7.2.5/src/acl.c:918-944 | A first argument is added once, up to case |
| `AclSelector.SelectorObject.UpdateCommandRules` | redis-bin/redis-7.2.5/src/acl.c:596-604 | The text after the in-place removal and the appended rule |
| `AclSelector.SelectorObject.SetSelector` | redis-bin/redis-7.2.5/src/acl.c:1097-1174 | The command branches, with every error |
| `AclSelector.SelectorObject.SetUniform` | redis-bin/redis-7.2.5/src/acl.c:1027-1040 | `allcommands` and `nocommands` |
| `AclSelector.SelectorObject.SetCategory` | redis-bin/redis-7.2.5/src/acl.c:682-691 | A category rule |
| `AclSelector.SelectorObject.SameBitmap` | redis-bin/redis-7.2.5/src/acl.c:771-783 | `memcmp` of the bitmaps |
| `AclSelector.SelectorObject.Describe` | redis-bin/redis-7.2.5/src/acl.c:733-786 | The describer on a good selector does not panic and returns the text |
| `Blocked.Server.Run` | redis-bin/redis-7.2.5/src/blocked.c:315-359 | After every run of connecting, blocking, signalling, serving, timing out, resuming, closing and reprocessing, in any order: key maps and queues are one relation, the deletion counts are those of the queues, the counters are the numbers of blocked clients, and a key is in the ready dictionary exactly when it is queued, once |
| `Blocked.Server.BlockClient` | redis-bin/redis-7.2.5/src/blocked.c:88-99 | The counters stay the numbers of blocked clients |
| `Blocked.Server.BlockForKeys` | redis-bin/redis-7.2.5/src/blocked.c:368-419 | The client goes to the end of the queue of every key, once per key |
| `Blocked.Server.ReleaseEntry` | redis-bin/redis-7.2.5/src/blocked.c:516-549 | One queue entry and its deletion count go |
| `Blocked.Server.UnblockWaitingData` | redis-bin/redis-7.2.5/src/blocked.c:423-437 | The client leaves all its queues |
| `Blocked.Server.QueueForReprocessing` | redis-bin/redis-7.2.5/src/blocked.c:173-180 | A client is queued at most once |
| `Blocked.Server.UnblockClient` | redis-bin/redis-7.2.5/src/blocked.c:184-224 | Index, counters and lists after unblocking |
| `Blocked.Server.UnblockEarly` | redis-bin/redis-7.2.5/src/blocked.c:709-725 | Time-out and error: the pending command is dropped |
| `Blocked.Server.UnblockPostponed` | redis-bin/redis-7.2.5/src/networking.c:4002-4010 | A postponed client keeps its pending command |
| `Blocked.Server.Disconnect` | redis-bin/redis-7.2.5/src/networking.c:1604-1607 | A client that goes away leaves all queues, lists and counters |
| `Blocked.Server.SignalKey` | redis-bin/redis-7.2.5/src/blocked.c:456-503 | A key is queued exactly if it is not queued yet, some client is blocked with the type, and some client waits for the key, for its deletion if it is one |
| `Blocked.Waiting` | redis-bin/redis-7.2.5/src/blocked.c:456-503 | The quick checks on counters and dictionaries are exact |
| `Blocked.Server.Serve` | redis-bin/redis-7.2.5/src/blocked.c:640-679 | The served client leaves all queues, runs its command again, and is requeued unless it blocked again, on keys or otherwise; the ready keys are those of its signals that matter |
| `Blocked.Server.HandleKey` | redis-bin/redis-7.2.5/src/blocked.c:562-598 | One signal visits at most the initial queue, in the order of blocking; exactly the clients that wait for deletions, or for the type of the value that is there, are served and end as their command says; the others keep their order and state, and those that block again stand behind them; keys become ready only by signals of these commands |
| `Blocked.ChosenOrder` | redis-bin/redis-7.2.5/src/blocked.c:562-598 | Exactly the clients whose visit finds their wait over are served, earlier ones first |
| `Blocked.ServedIff` | redis-bin/redis-7.2.5/src/blocked.c:588-590 | A client in the queue is served if and only if it waits for deletions or a value of the type it waits for is there |
| `Blocked.ServedAfterWrite` | redis-bin/redis-7.2.5/src/blocked.c:315-359 | A client that blocks on a key with a list, sorted-set or stream command is served, and queued for its next command, when the key is written and the ready keys are handled |
| `Blocked.Server.RunCommand` | redis-bin/redis-7.2.5/src/blocked.c:456-503 | A command that is run makes ready exactly the keys of its signals that matter, behind those that are; then the client is blocked as the command says |
| `Blocked.Server.BeginHandling` | redis-bin/redis-7.2.5/src/blocked.c:331-339 | The ready keys become the list to work on |
| `Blocked.Server.HandleNext` | redis-bin/redis-7.2.5/src/blocked.c:341-355 | A key can be signalled again as soon as it is being handled |
| `Blocked.Server.ProcessUnblocked` | redis-bin/redis-7.2.5/src/blocked.c:125-155 | The first client leaves the list; unless it is blocked it runs what it has to run, with the client, its queues and the ready keys afterwards |
| `Blocked.Server.BlockOther` | redis-bin/redis-7.2.5/src/blocked.c:601-634 | Blocking for other reasons; a postponed command stays pending |
| `Blocked.AddEntry` | redis-bin/redis-7.2.5/src/blocked.c:368-419 | Queueing a client for a key keeps the index |
| `Blocked.RemoveEntry` | redis-bin/redis-7.2.5/src/blocked.c:516-549 | Releasing an entry keeps the index |
| `BitCount.Popcount` | redis-bin/redis-7.2.5/src/bitops.c:40-92 | The number of ones, bit by bit, for every buffer and alignment |
| `BitCount.FoldBytes` | redis-bin/redis-7.2.5/src/bitops.c:66-86 | The folding counts the ones of each byte in that byte |
| `BitCount.Gather` | redis-bin/redis-7.2.5/src/bitops.c:66-86 | With at most 56 in each lane the multiplication brings their sum, at most 224, into the top byte |
| `BitCount.CountRange` | redis-bin/redis-7.2.5/src/bitops.c:811-873 | BITCOUNT is the number of ones in the normalised byte or bit range, also if its first and last byte coincide |
| `BitCount.CountMasked` | redis-bin/redis-7.2.5/src/bitops.c:858-873 | Counting whole bytes and taking off what is under the edge masks |
| `BitCount.Normalize` | redis-bin/redis-7.2.5/src/bitops.c:832-837 | Negative and out-of-range positions |
| `BitCount.RangeIs` | redis-bin/redis-7.2.5/src/bitops.c:832-837 | Which positions are in a range: negative ends count from behind, and an end before the string means its first position |
| `BitPos.Bitpos` | redis-bin/redis-7.2.5/src/bitops.c:101-186 | The least position of the bit in the string, or what the function promises if there is none, for every alignment |
| `BitPos.SkipWords` | redis-bin/redis-7.2.5/src/bitops.c:132-142 | Whole words are skipped exactly while they hold no such bit |
| `BitPos.Scan` | redis-bin/redis-7.2.5/src/bitops.c:168-180 | From the top bit down to the first such bit |
| `BitPos.PosRange` | redis-bin/redis-7.2.5/src/bitops.c:905-1002 | BITPOS: the least position in the range, -1 if an explicit range has none or no one exists, and the first position behind the string for a zero without explicit end |
| `BitPos.PosMasked` | redis-bin/redis-7.2.5/src/bitops.c:958-986 | First byte, whole bytes, last byte |
| `BitField.SetUnsigned` | redis-bin/redis-7.2.5/src/bitops.c:209-222 | The field takes the low bits of the value, and no other bit changes |
| `BitField.GetUnsigned` | redis-bin/redis-7.2.5/src/bitops.c:229-241 | The number in the field |
| `BitField.GetSigned` | redis-bin/redis-7.2.5/src/bitops.c:243-263 | Its two's complement reading |
| `BitField.CheckUnsigned` | redis-bin/redis-7.2.5/src/bitops.c:288-323 | Overflow is found exactly, and the limit is the wrapped or saturated number |
| `BitField.CheckSigned` | redis-bin/redis-7.2.5/src/bitops.c:325-378 | Overflow is found exactly; the limit is the wrapped or saturated number, except for values so low that the distance to the maximum is no 64-bit integer |
| `BitField.IncrBy` | redis-bin/redis-7.2.5/src/bitops.c:1150-1215 | INCRBY: the field reads back as the sum if it fits, otherwise as WRAP, SAT or FAIL say; no other bit changes; the reply |
| `BitField.Set` | redis-bin/redis-7.2.5/src/bitops.c:1150-1215 | SET: what the field holds afterwards for every 64-bit argument and overflow type; no other bit changes; the reply |
| `BitField.SetIff` | redis-bin/redis-7.2.5/src/bitops.c:330-336 | SET stores what the overflow type says if and only if it does not saturate a signed number below 2^(bits-1) - 2^63 |
| `BitField.FitsIs` | redis-bin/redis-7.2.5/src/bitops.c:288-378 | The bounds of signed and unsigned fields |
| `BitField.OtherBits` | redis-bin/redis-7.2.5/src/bitops.c:209-222 | What it means that no other bit changes |
| `BitField.IncrementedIs` | redis-bin/redis-7.2.5/src/bitops.c:288-378 | The number INCRBY leaves: the sum if it fits, else the congruent number of the type, the bound it went over, or what was there |
| `BitField.StoredIs` | redis-bin/redis-7.2.5/src/bitops.c:288-378 | The number SET is to leave, a negative argument for an unsigned field counting from 2^64 |
| `BitField.ReadUnsignedExample` | redis-bin/redis-7.2.5/src/bitops.c:229-241 | Fields start at the high bit: u8 at bit 4 of A5 0F is 50 |
| `BitField.ReadSignedExample` | redis-bin/redis-7.2.5/src/bitops.c:243-263 | i8 of FE is -2 |
| `BitField.LowestSaturates` | redis-bin/redis-7.2.5/src/bitops.c:330-336 | A concrete one: the lowest 64-bit integer saturates an `i8` field at 127 |
| `BitField.Get` | redis-bin/redis-7.2.5/src/bitops.c:1217-1249 | GET through the zero-padded copy of nine bytes reads the zero-extended string |
| `BitField.Window` | redis-bin/redis-7.2.5/src/bitops.c:1217-1249 | Nine bytes are enough for every field |
| `BitOp.Compute` | redis-bin/redis-7.2.5/src/bitops.c:639-771 | The result has the length of the longest source, and each byte is the fold of the sources' bytes, short and missing ones as zeros |
| `BitOp.FastPath` | redis-bin/redis-7.2.5/src/bitops.c:672-744 | The rounds of four words compute the fold of what they cover |
| `BitOp.TailByte` | redis-bin/redis-7.2.5/src/bitops.c:746-770 | The byte loop with its early exits computes the fold |
| `BitOp.FoldMeans` | redis-bin/redis-7.2.5/src/bitops.c:746-770 | AND is all sources, OR some source, XOR an odd number of sources, NOT none |
| `BitOp.Lengths` | redis-bin/redis-7.2.5/src/bitops.c:638-672 | The longest and the shortest length, a missing key counting as empty |
| `Crc64.CrcOfChunks` | redis-bin/redis-7.2.5/src/crc64.c:116-123 | Any number of successive calls on buffers at any addresses, from seed 0, on either byte order, give the bit-by-bit CRC of the whole |
| `Crc64.Crc64` | redis-bin/redis-7.2.5/src/crc64.c:121-123 | One call continues the bit-by-bit CRC of everything before |
| `Crc64.Bitwise` | redis-bin/redis-7.2.5/src/crc64.c:88-111 | The bit loop and the reflection give the mirrored bit-by-bit register |
| `Crc64.Reflect` | redis-bin/redis-7.2.5/src/crc64.c:69-78 | Reflection mirrors the 64 bits |
| `Crc64.MirrorBits` | redis-bin/redis-7.2.5/src/crc64.c:69-78 | Bit i of the mirrored register is bit 63 - i |
| `Crc64.CheckValue` | redis-bin/redis-7.2.5/src/crc64.c:135-138 | The CRC of `123456789` is e9c6d914c4b8d9ca |
| `Crc64.CrcIsFeed` | redis-bin/redis-7.2.5/src/crc64.c:88-111 | The reflected register can be fed directly, low bit first |
| `Crc64.StepXor` | redis-bin/redis-7.2.5/src/crcspeed.c:33-50 | Eight clocks are linear over GF(2) |
| `Crc64.CrcContinues` | redis-bin/redis-7.2.5/src/crc64.c:121-123 | Feeding more bytes from the CRC of a prefix gives the CRC of the whole |
| `Crc64.InitLittle` | redis-bin/redis-7.2.5/src/crcspeed.c:33-50 | Entry (k, n) is n after k + 1 byte steps |
| `Crc64.SliceLittle` | redis-bin/redis-7.2.5/src/crcspeed.c:123-133 | The eight look-ups are eight byte steps |
| `Crc64.CrcLittle` | redis-bin/redis-7.2.5/src/crcspeed.c:112-144 | The little-endian form feeds all bytes, at any alignment |
| `Crc64.InitBig` | redis-bin/redis-7.2.5/src/crcspeed.c:87-95 | The big-endian table is the other one with reversed entries |
| `Crc64.SliceBig` | redis-bin/redis-7.2.5/src/crcspeed.c:193-205 | Its look-ups are eight byte steps of the reversed register |
| `Crc64.CrcBig` | redis-bin/redis-7.2.5/src/crcspeed.c:183-213 | The big-endian form returns the same value |
| `Crc64.Init` | redis-bin/redis-7.2.5/src/crcspeed.c:270-275 | The table for the machine's byte order |
| `Bio.Workers.Run` | redis-bin/redis-7.2.5/src/bio.c:152-322 | In every interleaving each worker has been given the jobs of its types in order and has processed a prefix of them, and fsync offsets submitted in order are published in order |
| `Bio.Workers.Submit` | redis-bin/redis-7.2.5/src/bio.c:152-160 | The job goes to the end of its worker's queue and is counted |
| `Bio.Workers.Pick` | redis-bin/redis-7.2.5/src/bio.c:228-241 | The worker takes the first job and leaves it in the queue |
| `Bio.Workers.Process` | redis-bin/redis-7.2.5/src/bio.c:243-291 | The job is run; a successful fsync publishes its offset |
| `Bio.Workers.Remove` | redis-bin/redis-7.2.5/src/bio.c:293-298 | The job leaves the queue and the counter |
| `Bio.Workers.Pending` | redis-bin/redis-7.2.5/src/bio.c:303-311 | The queued or running jobs of a type |
| `Bio.Workers.LookDrained` | redis-bin/redis-7.2.5/src/bio.c:314-322 | True exactly for an empty queue, and then all jobs submitted before have been processed, once and in order |
| `Bio.PublishedInOrder` | redis-bin/redis-7.2.5/src/bio.c:259-277 | Offsets submitted in order are published in order, whatever fsyncs fail |
| `Adlist.List.LinkHead` | redis-bin/redis-7.2.5/src/adlist.c:103-114 | Prepending a node |
| `Adlist.List.LinkTail` | redis-bin/redis-7.2.5/src/adlist.c:136-147 | Appending a node |
| `Adlist.List.AddHead` | redis-bin/redis-7.2.5/src/adlist.c:89-98 | Prepending a value |
| `Adlist.List.AddTail` | redis-bin/redis-7.2.5/src/adlist.c:122-131 | Appending a value |
| `Adlist.List.InsertNode` | redis-bin/redis-7.2.5/src/adlist.c:149-176 | Inserting a value before or behind a node |
| `Adlist.List.UnlinkNode` | redis-bin/redis-7.2.5/src/adlist.c:192-206 | Removing a node, whose own pointers are cleared |
| `Adlist.List.DelNode` | redis-bin/redis-7.2.5/src/adlist.c:182-187 | Deleting a node |
| `Adlist.List.Empty` | redis-bin/redis-7.2.5/src/adlist.c:57-72 | Emptying the list |
| `Adlist.List.Index` | redis-bin/redis-7.2.5/src/adlist.c:346-358 | The node at a position, negative ones from the tail, or none |
| `Adlist.List.RotateTailToHead` | redis-bin/redis-7.2.5/src/adlist.c:361-373 | The last node becomes the first |
| `Adlist.List.RotateHeadToTail` | redis-bin/redis-7.2.5/src/adlist.c:376-388 | The first node becomes the last |
| `Adlist.List.Join` | redis-bin/redis-7.2.5/src/adlist.c:392-408 | The other list's nodes are appended and it is left empty |
| `Adlist.List.SearchKey` | redis-bin/redis-7.2.5/src/adlist.c:321-339 | The first node that matches, or none does |
| `Adlist.List.Dup` | redis-bin/redis-7.2.5/src/adlist.c:276-310 | A new list with the duplicated values in order |
| `Adlist.Iter.Next` | redis-bin/redis-7.2.5/src/adlist.c:255-266 | What comes next is read before the node is handed out |
| `Adlist.WalkFromHead` | redis-bin/redis-7.2.5/src/adlist.c:241-266 | Deleting any visited nodes on the way from the head: every node is visited once, in order, and exactly the others remain |
| `Adlist.WalkFromTail` | redis-bin/redis-7.2.5/src/adlist.c:241-266 | The same from the tail |

## Left out

- The Go server (HTTP, database and stream wrappers): straight-line calls into libraries.
- In `aof.c`: RDB preambles and RDB loading, streams, modules, sorted-set scores, timestamp annotations, the upgrade from old versions, latency samples and logging.
- A restart with the log off, and one from a manifest without incr files (`AofProtocol`): the model restarts a log that is on.
- Real bytes inside the protocol: `AofProtocol` moves whole commands from the buffer to the file; that a torn last command is cut off is `AofLoader.LoadPrefix`, and bytes are `AofFlush`.
- DescribeSafe: rules have no blanks and no quotes, as `DescribeIff` shows to be necessary.
- PanicIff: rules about keys and channels are not modelled, so as pieces of a rule they count as refused.
- In `acl.c`: passwords, key and channel patterns, several selectors per user, the ACL log, files, and commands added to the table later.
- In `blocked.c`: modules, statistics, the time-out table and replica acknowledgements. A queue node is identified by its client; a step of a run is one client or one key.
- A command that frees or unblocks another client while it is run again: these are separate events of the model.
- In `bitops.c`: argument parsing, replies, SETBIT and GETBIT. The table `bitsinbyte` is the function `Bits.Weight`.
- CheckUnsigned: fields have at most 63 bits, as the commands ensure.
- In `crcspeed.c`: the 16-bit form.
- In `bio.c`: condition variables, signals, thread set-up and the jobs' own work.
- In `adlist.c`: memory, the free method and the stack of free callbacks; the place of a node is a ghost argument.
- Allocation failure and reference counts throughout.
