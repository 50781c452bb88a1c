# esp-adf-libs: a verified model of its stateful components

Five components of the repository keep state by hand: the allocation-history writer and the
allocation tracer of `media_lib_sal`, the ID3 tag parser of `esp_extractor`, the HLS framing of
`esp_hls_stream`, and the codec registry of `esp_video_codec`. This project models each of them in
Dafny and proves what it is for. `dafny verify dfyconfig.toml` checks everything.

## How the project is laid out

For each component there is a specification on values (datatypes, functions, lemmas) and, since the
code changes its state in place, classes whose methods are proved to compute those functions.

| files | component |
|---|---|
| `SliceRing`, `HistoryRun`, `HistoryTheorems`, `HistoryExamples`, `SaveHistory` | the slice ring, its producer and its saver thread: a step system with one step per access to shared state, theorems over every schedule, runs that go wrong, and the code over real buffers |
| `HisRecord`, `TraceScript` | the history's byte format; `mem_trace.pl`'s reading of it, as written |
| `TraceModel`, `TraceAccounting`, `ModuleBooks`, `MemoryTrace` | the tracer's table, modules and counters; what the counters mean, in total, by id and by name; the code over an array |
| `Replay`, `TracedSystem` | tracer and writer together, up to what the file says about the table |
| `TraceThreads`, `TracedThreads` | threads that allocate, free and reallocate over one tracer; threads and writer together, up to what the script prints |
| `Id3Text`, `Id3Tag`, `Id3V1`, `Id3Parser` | text and integers, tags of both kinds and their meaning, the parser with failing reader and allocator |
| `HlsFraming`, `HlsIo` | chunks on the data bus; the reader and the writer |
| `CodecList`, `CodecRegistry` | the registry as a list over time; the linked list of heap nodes |
| `Arithmetic`, `Bytes`, `Wrappers` | shared basics |

The slice count, slice size, pointer width, table size, number of threads and every schedule are
arbitrary. Nondeterministic choices (`*` and `:|`) stand for the scheduler, the allocator, the file
reader, the data bus and the fetcher, so each contract holds whatever they do.

## Where the code does not do what one expects

These are results: the code is kept as it is, an example shows the failure, and a lemma says exactly when
the property holds.

- **Stopping the history can lose slices.** `save_thread` reads `n`, and only then `stopping`. A slice
  completed between the two reads is never written. The file is complete after a stop exactly when
  the saver was not caught there (`StopFlushesUnlessSliceMissed`, `StopCanLoseASlice`,
  `StopCanLoseARecord`). It can then even begin with the wrong record; it is a prefix of the log exactly
  when no slice was missed or the partial slice continues the file
  (`StoppedFileIsPrefixIff`, `StopCanBreakThePrefix`, `MissedSliceBreaksReplay`).
- **Stopping the history can leave a thread waiting for ever.** `media_lib_stop_mem_trace` stops the
  history before it takes the tracer's mutex, so another thread may be inside `his_write`. Its wait on a full ring ends exactly when
  the saver will look at the ring again, that is, has not left its loop or just read n == 0 with
  `stopping` set (`WaitEndsIffSaverReturns`, `StopCanHangAProducer`).
- **`_realloc` can put one address in the table twice.** It moves the block before it takes the mutex.
  Addresses stay unique exactly while no add of the old address falls in that window
  (`RunIsUniqueUnlessClash`, `PlainReallocBreaksUniqueness`); without `_realloc` they always are.
  In the same window the table can list an address that is not live, and without clashes does so in no
  other case (`RunTracedIsLiveUnlessMoved`, `PlainReallocLeavesDeadEntry`).
- **Module id 0 means two things.** It is both "no module" and the first module. The law of a module's
  counter holds for every id, but for id 0 it has a correction term, `stray`; the counter reads as the
  table's total exactly when that is a multiple of 2^32, and it is 0 as long as every recorded add is
  charged to a module (`UsageIsAccountedFor`, `UsageReadsAsTotalIffNoStray`,
  `ChargedAddsLeaveNoStrays`, `AnonymousEntriesShareIdZero`).
  Releasing an entry that was charged to nobody lowers the counter of the first name (`UsageByName`).
- **Registration with cc 0 can succeed without registering**, namely when any codec of the type is there
  (`SuccessMeansPresent`, `CcZeroIsNotRegistered`).
- **ID3 keys match by prefix**, so composer and copyright frames become the genre
  (`AlbumAndGenreByPrefix`).
- **A parsed ID3 tag need not be consumed.** A skip answered with 0 counts as done, and the result of the
  last one is ignored. A successful parse has consumed the announced size exactly when no skip fell
  short (`ParseV2`, `ParseCutPadding`).
- **`mem_trace.pl` takes what is left of a record for a record.** It ignores how much it has read, and it
  aborts on an allocation none of whose frames it can find, on every one if the stack depth is 0.
  Its report is that of the whole records exactly when all of them have such a frame and the file does
  not end inside a `+` record, except one that repeats an entry
  (`ReportIsOfflineIff`, `NoFramesNoReport`, `CutIsReportedAsLeak`).
- **The table can miss a live block**: when it is full, and when a reallocation fails, which drops the
  entry of a block that stays where it is. Otherwise it misses none
  (`OwnedIsTracedUnlessLost`, `FailedReallocLosesEntry`).
- **The HLS writer does not limit the fetcher for a buffer of twelve bytes or less**; for all longer ones a
  block fits (`AnswersFitIffRoom`).

## Model

| member | source | states |
|---|---|---|
| SliceRing.SlotIsModulo | media_lib_sal/mem_trace/media_lib_mem_his.c:96-112 | the ring's cursors move by addition modulo the slice count |
| SliceRing.FillAppends | media_lib_sal/mem_trace/media_lib_mem_his.c:85-101 | with a slot free, a locked pass moves bytes from the buffer to the end of the ring's contents, none lost, repeated or reordered, and makes progress |
| SliceRing.FillKeepsCompletedSlices | media_lib_sal/mem_trace/media_lib_mem_his.c:85-101 | such a pass changes no completed slice and not the index of the oldest |
| SliceRing.RetireDropsOldest | media_lib_sal/mem_trace/media_lib_mem_his.c:110-122 | decrementing n takes exactly the oldest slice out of the contents |
| SliceRing.RefusedOnlyWhenOversized | media_lib_sal/mem_trace/media_lib_mem_his.c:62-75 | the wait check refuses a record if and only if the ring is full and the record exceeds a slice |
| HistoryRun.StepKeepsInv | media_lib_sal/mem_trace/media_lib_mem_his.c:77-161 | every step of either thread keeps the separation of the threads and the FIFO equation |
| HistoryTheorems.LogIsKeptInOrder | media_lib_sal/mem_trace/media_lib_mem_his.c:77-128 | over every schedule, while the saver is in its loop, file, ring and producer buffers together are the bytes of the accepted records, in order; the file is a prefix of them |
| HistoryTheorems.SliceBelongsToSaver | media_lib_sal/mem_trace/media_lib_mem_his.c:110-122 | from computing the head on, no number of producer steps moves the head or changes a byte of the saver's slice, without the lock |
| HistoryTheorems.RingArithmetic | media_lib_sal/mem_trace/media_lib_mem_his.c:86-99 | the partial slice holds the remainder, completed slices the quotient, of the bytes entered by the slice size |
| HistoryTheorems.FullRingDrains | media_lib_sal/mem_trace/media_lib_mem_his.c:105-128 | a saver that will look at a non-empty ring again gives back a slice within one round, of bounded length |
| HistoryTheorems.WaitEndsIffSaverReturns | media_lib_sal/mem_trace/media_lib_mem_his.c:77-128 | a wait on a full ring can end if and only if the saver is in its loop and not past reading n == 0 with stopping set; then within one round of the saver |
| HistoryTheorems.NoReturnNoDrain | media_lib_sal/mem_trace/media_lib_mem_his.c:77-139 | otherwise no schedule changes the ring or lets the producer on |
| HistoryTheorems.StopFlushesUnlessSliceMissed | media_lib_sal/mem_trace/media_lib_mem_his.c:109-161 | after a stop the file, with what a producer in the middle of a record has not put into the ring, is the whole log if and only if no slice was completed between the saver's two reads; otherwise it is the log with the slices in the ring cut out |
| HistoryTheorems.StopKeepsPrefix | media_lib_sal/mem_trace/media_lib_mem_his.c:105-161 | if no slice was missed at the stop, or the partial slice continues the file, the file is a prefix of the log at every moment, through the final flush |
| HistoryTheorems.StoppedFileIsPrefixIff | media_lib_sal/mem_trace/media_lib_mem_his.c:105-161 | the file a stop leaves is a prefix of the log in exactly these cases |
| HistoryTheorems.StopTerminates | media_lib_sal/mem_trace/media_lib_mem_his.c:153-161 | after a stop the saver alone reaches its exit within a stated number of steps |
| HistoryExamples.StopCanLoseASlice | media_lib_sal/mem_trace/media_lib_mem_his.c:109-126 | the losing state is reachable for any slice count and size, with any record of a slice's length: five steps |
| HistoryExamples.StopCanBreakThePrefix | media_lib_sal/mem_trace/media_lib_mem_his.c:109-139 | nine steps after which a stop leaves a file that is no prefix of the log |
| HistoryExamples.StopCanHangAProducer | media_lib_sal/mem_trace/media_lib_mem_his.c:77-126 | for any slice count and size, a run after which the stop leaves a producer waiting under every schedule |
| SaveHistory.SaveHis.FillLocked | media_lib_sal/mem_trace/media_lib_mem_his.c:85-101 | the locked section over real buffers is the producer's step |
| SaveHistory.SaveHis.SaverMove | media_lib_sal/mem_trace/media_lib_mem_his.c:105-151 | each access of save_thread over real buffers is the saver's step |
| SaveHistory.SaveHis.HisWrite | media_lib_sal/mem_trace/media_lib_mem_his.c:77-103 | the whole buffer enters the ring, whenever and however often the saver runs in between; the loop ends |
| SaveHistory.SaveHis.WaitForEnough | media_lib_sal/mem_trace/media_lib_mem_his.c:62-75 | accepts at once when there is room, and always a record that fits a slice |
| SaveHistory.SaveHis.AddRecord | media_lib_sal/mem_trace/media_lib_mem_his.c:218-241 | appends the whole record or nothing to the log; on return every logged byte is in the file or the ring |
| SaveHistory.SaveHis.SyncMemHis | media_lib_sal/mem_trace/media_lib_mem_his.c:153-161 | ends, even with a producer waiting, and the file with what that producer still has is the log if and only if the saver had not missed a slice at the call |
| HisRecord.RecordRoundTrip | media_lib_sal/mem_trace/media_lib_mem_his.c:27-40 | a record is read back exactly whatever follows, for any pointer width and any value of its unset byte |
| HisRecord.RecordLayout | media_lib_sal/mem_trace/media_lib_mem_his.c:27-40 | both records with 4-byte pointers, byte for byte |
| HisRecord.CutRecordIsRejected | media_lib_sal/mem_trace/media_lib_mem_his.c:27-40 | the format is self-delimiting: no proper prefix of a record is a record |
| HisRecord.LogRoundTrip | media_lib_sal/mem_trace/media_lib_mem_his.c:218-241 | the bytes of any list of records decode to that list |
| HisRecord.PrefixDecodes | media_lib_sal/mem_trace/media_lib_mem_his.c:27-40 | a reader that takes whole records only gets from a log cut anywhere a prefix of its records |
| HisRecord.PrefixDecodesAllWholeRecords | media_lib_sal/mem_trace/media_lib_mem_his.c:27-40 | that prefix misses no record that is whole |
| TraceModel.TotalSwapRemove | media_lib_sal/mem_trace/media_lib_mem_trace.c:233-243 | swap-with-last removal takes exactly the removed entry out of every total |
| TraceModel.CapturedKeepsFrames | media_lib_sal/mem_trace/media_lib_mem_trace.c:245-259 | an add keeps the first frames it can see: as many as there are, at most the configured depth and ten, none unless history or leaks are traced; nothing else satisfies this |
| TraceModel.AddEntersTable | media_lib_sal/mem_trace/media_lib_mem_trace.c:210-266 | an add with room appends an entry with its own address, size and frames; without room it changes no entry and sets overflow |
| TraceModel.EntriesStemFromAdds | media_lib_sal/mem_trace/media_lib_mem_trace.c:194-280 | over every run the table holds at most the configured number of entries, each with the address, size and frames of some add of the run |
| TraceAccounting.ChargeIsLocal | media_lib_sal/mem_trace/media_lib_mem_trace.c:159-180 | an add charges one module at most, returns its id, and leaves every other module's counters alone |
| TraceAccounting.RefundIsLocal | media_lib_sal/mem_trace/media_lib_mem_trace.c:182-192 | a removal lowers the counter of that id's module only |
| TraceAccounting.UsageIsAccountedFor | media_lib_sal/mem_trace/media_lib_mem_trace.c:159-243 | over every run: usage is the table's total plus what the table did not take, modulo 2^32; exactly that, with the peak the true maximum, while sums stay in range; the same per module id |
| TraceAccounting.UsageReadsAsTotalIffNoStray | media_lib_sal/mem_trace/media_lib_mem_trace.c:159-243 | a module's counter is the table's total of its id plus what the table did not take, modulo 2^32, if and only if the strays are a multiple of 2^32 |
| TraceAccounting.ChargedAddsLeaveNoStrays | media_lib_sal/mem_trace/media_lib_mem_trace.c:159-180 | while every add the table takes is charged to a module, there are no strays for any id |
| TraceAccounting.PeakIsHighestUsage | media_lib_sal/mem_trace/media_lib_mem_trace.c:159-192 | over every run, for the total and each module: the peak is the highest of the usages that adds charged to it have left, whatever wraps |
| TraceAccounting.AnonymousEntriesShareIdZero | media_lib_sal/mem_trace/media_lib_mem_trace.c:91-179 | an anonymous entry counts among the first module's entries but not in its usage |
| ModuleBooks.AddChargesNamedModule | media_lib_sal/mem_trace/media_lib_mem_trace.c:159-180 | an add by a known name raises the module of that name, no other, and returns its id; an unknown name gets its own module while there are fewer than 256 and memory can be had; else no module changes and the id is 0 |
| ModuleBooks.UsageByName | media_lib_sal/mem_trace/media_lib_mem_trace.c:49-192 | over every run, with books kept by the callers' names: one module per name on the books, its counter what was allocated under the name less what was released of it, modulo 2^32; an entry charged to nobody is released from the first name |
| MemoryTrace.MemTrace.GetModule | media_lib_sal/mem_trace/media_lib_mem_trace.c:49-62 | the first module of that name, or none |
| MemoryTrace.MemTrace.GetModuleById | media_lib_sal/mem_trace/media_lib_mem_trace.c:64-74 | the first module of that id, or none |
| MemoryTrace.MemTrace.GetTraceItem | media_lib_sal/mem_trace/media_lib_mem_trace.c:194-208 | the first entry of that address, or none |
| MemoryTrace.MemTrace.AddMemUsage | media_lib_sal/mem_trace/media_lib_mem_trace.c:159-180 | new counters, modules and returned id are those of the specification |
| MemoryTrace.MemTrace.RemoveMemUsage | media_lib_sal/mem_trace/media_lib_mem_trace.c:182-192 | new counters are those of the specification |
| MemoryTrace.MemTrace.AddTraceItem | media_lib_sal/mem_trace/media_lib_mem_trace.c:210-231 | the entry is appended to the table, or overflow is noted and the table kept |
| MemoryTrace.MemTrace.RemoveTraceItem | media_lib_sal/mem_trace/media_lib_mem_trace.c:233-243 | the array afterwards holds the swap-removed table |
| MemoryTrace.MemTrace.AddTrace | media_lib_sal/mem_trace/media_lib_mem_trace.c:245-266 | the tracer's new state is that of one traced add |
| MemoryTrace.MemTrace.RemoveTrace | media_lib_sal/mem_trace/media_lib_mem_trace.c:268-280 | the tracer's new state is that of one traced removal, unknown addresses changing nothing |
| MemoryTrace.MemTrace.PrintLeak | media_lib_sal/mem_trace/media_lib_mem_trace.c:133-157 | the leak is the total of a known module's id, or of the whole table, as a 32-bit int |
| Replay.ReplayGivesTable | media_lib_sal/mem_trace/media_lib_mem_trace.c:194-280 | replaying a run's records as append and first-match swap-remove gives the table, entry for entry; without the table's limit if it never overflowed |
| Replay.RecordDescribesCall | media_lib_sal/mem_trace/media_lib_mem_trace.c:245-280 | a call's record has its address, size modulo 2^32, flag and first visible frames; with history, a depth and a visible frame, the innermost one |
| Replay.OfflineReportMatchesTable | media_lib_sal/mem_trace/media_lib_mem_trace.c:194-280 | the records, read as a map from address to size, have exactly the table's addresses and sizes when adds are of fresh addresses and the table never overflowed |
| TraceScript.ParseAllPc | media_lib_sal/mem_trace/mem_trace.pl:148-178 | selects the first frame with a place that is the last frame or in no file of the allocator layer; none, the script's abort, if and only if there is none |
| TraceScript.ResolvesIff | media_lib_sal/mem_trace/mem_trace.pl:163-171 | a frame is found if and only if the last one has a place, or any has one outside the allocator layer |
| TraceScript.ParseFile | media_lib_sal/mem_trace/mem_trace.pl:198-249 | the loop over reads that may fall short computes, for any bytes, the report defined record by record |
| TraceScript.ReportIsOffline | media_lib_sal/mem_trace/mem_trace.pl:198-249 | on any bytes: an abort if some whole record has no frame to be found, else the records' map, changed or aborted only by a `+` record cut at the end |
| TraceScript.ReportIsOfflineIff | media_lib_sal/mem_trace/mem_trace.pl:198-249 | the report is the whole records' map if and only if each `+` has a frame to be found and no cut `+` record ends the file, but one that repeats an entry |
| TraceScript.CutLogReport | media_lib_sal/mem_trace/mem_trace.pl:198-249 | on a written log cut inside a record: a cut `-` does no harm, a cut `+` aborts or is reported as a leak |
| TraceScript.NoFramesNoReport | media_lib_sal/mem_trace/mem_trace.pl:172-175 | with stack depth 0 a log with any allocation makes the script abort |
| TraceScript.CutIsReportedAsLeak | media_lib_sal/mem_trace/mem_trace.pl:205-222 | one cut record, and no whole one, reported as a leak |
| TraceScript.ScriptReportMatchesTable | media_lib_sal/mem_trace/mem_trace.pl:198-249 | on the log of a run with fresh addresses and no overflow the script prints the device's table if every allocation has a captured frame to be found, and aborts otherwise |
| TraceScript.ScriptPrintsTableIfCallersAreKnown | media_lib_sal/mem_trace/mem_trace.pl:198-249 | with the history on and a stack depth, it is enough for the table to be printed that the innermost frame of every allocation has a place outside the allocator layer |
| TracedSystem.HistoryReplaysToTable | media_lib_sal/mem_trace/media_lib_mem_trace.c:245-280 | end to end, with the history on and over every interleaving: while the saver is in its loop, decoding file, ring and buffers and replaying gives the current table |
| TracedSystem.HistoryDescribesCalls | media_lib_sal/mem_trace/media_lib_mem_trace.c:245-280 | end to end: while the saver is in its loop, what can be read back has one record for each call, in order, with its address, size, flag and first frames |
| TracedSystem.NoHistoryNoRecords | media_lib_sal/mem_trace/media_lib_mem_trace.c:260-274 | with the history off nothing is ever logged or written |
| TracedSystem.FileReplaysToAnEarlierTable | media_lib_sal/mem_trace/media_lib_mem_his.c:105-151 | while the saver is in its loop, what is in the file replays to the table as it was after some earlier call |
| TracedSystem.StoppingFileReplaysToAnEarlierTable | media_lib_sal/mem_trace/media_lib_mem_his.c:105-161 | the same from a stop on, through the final flush and after it, if no slice was missed or the partial slice continues the file |
| TracedSystem.MissedSliceBreaksReplay | media_lib_sal/mem_trace/media_lib_mem_his.c:105-161 | a run of one allocation and one release with a missed slice: the file is the release's record alone, the records of no earlier call |
| TracedSystem.StopCanLoseARecord | media_lib_sal/mem_trace/media_lib_mem_his.c:109-126 | a release's record, logged into slices of its length, is lost by a stop |
| TracedSystem.StoppedFileReplaysToTable | media_lib_sal/mem_trace/media_lib_mem_his.c:153-161 | after a clean stop the file alone replays to the table |
| TraceThreads.TracedAddressesAreUnique | media_lib_sal/mem_trace/media_lib_mem_trace.c:282-390 | in every interleaving without _realloc: no two entries share an address, no address still in the table is added, and with the mutex free every traced address is live and owned |
| TraceThreads.LiveIsOwnedOrHeld | media_lib_sal/mem_trace/media_lib_mem_trace.c:282-327 | over every run, _realloc included, the live blocks are exactly those owned and those in the hands of a call under way; with no call under way, exactly those owned |
| TraceThreads.WholeLifeLeavesNothing | media_lib_sal/mem_trace/media_lib_mem_trace.c:282-390 | a block allocated, reallocated elsewhere and freed leaves nothing live, owned or traced |
| TraceThreads.UniqueUnlessClash | media_lib_sal/mem_trace/media_lib_mem_trace.c:315-327 | one move keeps addresses distinct if and only if it traces no address inside another thread's reallocation window |
| TraceThreads.RunIsUniqueUnlessClash | media_lib_sal/mem_trace/media_lib_mem_trace.c:315-327 | the same for whole runs that use _realloc |
| TraceThreads.PlainReallocBreaksUniqueness | media_lib_sal/mem_trace/media_lib_mem_trace.c:315-327 | two threads and five moves put one address in the table twice, the mutex being free |
| TraceThreads.RunTracedIsLiveUnlessMoved | media_lib_sal/mem_trace/media_lib_mem_trace.c:315-327 | with _realloc, while no add has clashed and with the mutex free: every traced address is live if and only if no thread has moved a block off a traced, still unused address and not yet taken the mutex |
| TraceThreads.PlainReallocLeavesDeadEntry | media_lib_sal/mem_trace/media_lib_mem_trace.c:315-327 | one thread and three moves leave an entry whose address is not live |
| TraceThreads.OwnedIsTracedUnlessLost | media_lib_sal/mem_trace/media_lib_mem_trace.c:282-390 | in every interleaving without _realloc an owned address is in the table if and only if it was not lost to a full table or a failed reallocation; with the mutex free the table is exactly the owned addresses not lost |
| TraceThreads.FailedReallocLosesEntry | media_lib_sal/mem_trace/media_lib_mem_trace.c:375-390 | five moves after which a block is live and owned and the table is empty |
| TraceThreads.ThreadsOfflineReportMatchesTable | media_lib_sal/mem_trace/media_lib_mem_trace.c:282-390 | so for every such program without overflow the records, read as a map, are the table |
| TracedThreads.HistoryGivesThreadsLeaks | media_lib_sal/mem_trace/media_lib_mem_trace.c:245-390 | threads and writer together, in every interleaving, with the history on, records that fit a slice and a table that never overflowed: while the saver is in its loop, decoding file, ring and buffers gives the leaks of the threads' table |
| TracedThreads.ScriptPrintsThreadsTable | media_lib_sal/mem_trace/mem_trace.pl:198-249 | with the history on, records that fit a slice and a table that never overflowed: after a clean stop the script prints from the file exactly the threads' table if every allocation has a captured frame to be found, and aborts otherwise |
| Id3Text.CopyTrimIsDropThenStrip | esp_extractor/src/esp_extractor_id3_parser.c:72-93 | trimming both ends, then dropping NULs, equals dropping NULs, then stripping spaces, for every byte string |
| Id3Text.CopyTrimIsClean | esp_extractor/src/esp_extractor_id3_parser.c:72-93 | the result has no NUL, no space at either end, and is a fixed point |
| Id3Text.IntegerLayout | esp_extractor/src/esp_extractor_id3_parser.c:34-48 | integers have their most significant byte first; syncsafe ones use seven bits of each byte |
| Id3Text.SyncsafeBijection | esp_extractor/src/esp_extractor_id3_parser.c:39-43 | syncsafe reading is a bijection from four 7-bit bytes onto [0, 2^28) |
| Id3Text.Be32RoundTrip | esp_extractor/src/esp_extractor_id3_parser.c:34-37 | 32-bit big-endian integers are read back |
| Id3Text.Be24RoundTrip | esp_extractor/src/esp_extractor_id3_parser.c:45-48 | 24-bit big-endian integers are read back |
| Id3Tag.TagRoundTrip | esp_extractor/src/esp_extractor_id3_parser.c:275-349 | for versions 2, 3 and 4, any extended header, frames and zero padding under 2^28 bytes, parsing the written tag gives the fold of the frames |
| Id3Tag.HeaderLayout | esp_extractor/src/esp_extractor_id3_parser.c:275-318 | frame and tag headers of each version, byte for byte |
| Id3Tag.LoopStops | esp_extractor/src/esp_extractor_id3_parser.c:307-322 | an empty frame, one longer than what is left, and a zero byte end the loop, whatever follows |
| Id3Tag.RefusedTags | esp_extractor/src/esp_extractor_id3_parser.c:275-306 | a tag is refused if and only if its version is not 2, 3 or 4, or its extended header is longer than the tag or, in version 4, shorter than its own size field |
| Id3Tag.EncodedFramesFold | esp_extractor/src/esp_extractor_id3_parser.c:307-343 | the frame loop keeps each written frame in turn and stops at the padding |
| Id3Tag.ExtendedHeaderIsSkipped | esp_extractor/src/esp_extractor_id3_parser.c:283-306 | a written extended header, its size counting itself only in version 4, is skipped exactly |
| Id3Tag.LastFrameWins | esp_extractor/src/esp_extractor_id3_parser.c:154-175 | of the text frames that name a field, the last gives its value |
| Id3Tag.FieldByLetters | esp_extractor/src/esp_extractor_id3_parser.c:154-175 | by letters: title is TIT2 or TT2, author TPE1 or TP1, album TAL, date TDRC, TYER or TYE, genre TCO |
| Id3Tag.PictureByLetters | esp_extractor/src/esp_extractor_id3_parser.c:321 | by letters: a picture is PIC in version 2 and APIC in 3 and 4; a text frame begins T |
| Id3Tag.TextRoundTrip | esp_extractor/src/esp_extractor_id3_parser.c:95-152 | a plain text after its encoding byte comes back, with its encoding if that is 0 to 3 and else 255; as an extra, under the frame's id |
| Id3Tag.LastTextSetsEncoding | esp_extractor/src/esp_extractor_id3_parser.c:154-175 | the info's encoding is that of the last text frame, whether or not it was kept |
| Id3Tag.ExtendedHeaderFlag | esp_extractor/src/esp_extractor_id3_parser.c:283 | bit 6 of the flags announces the extended header |
| Id3Tag.FirstUnmatchedAreKept | esp_extractor/src/esp_extractor_id3_parser.c:126-152 | the extras are the first eight unmatched text frames, in order |
| Id3Tag.LastPictureWins | esp_extractor/src/esp_extractor_id3_parser.c:195-234 | of the accepted pictures the last gives picture, MIME type and size |
| Id3Tag.AlbumAndGenreByPrefix | esp_extractor/src/esp_extractor_id3_parser.c:121-175 | a frame is an album if and only if its id begins TAL, a genre if and only if it begins TCO |
| Id3Tag.PictureRoundTrip | esp_extractor/src/esp_extractor_id3_parser.c:195-234 | NUL-free MIME type and description and a non-empty picture come back, the picture exactly, the MIME type trimmed |
| Id3Tag.AcceptedPictureHasParts | esp_extractor/src/esp_extractor_id3_parser.c:195-234 | conversely, every accepted payload is such a picture frame |
| Id3Parser.CopyTrimmed | esp_extractor/src/esp_extractor_id3_parser.c:72-93 | the three loops compute the trimmed text into one fresh block, or nothing is allocated |
| Id3Parser.ReplaceString | esp_extractor/src/esp_extractor_id3_parser.c:112-119 | a new string frees and replaces the old; a missing one changes nothing |
| Id3Parser.LiveIsReachable | esp_extractor/src/esp_extractor_id3_parser.c:25-32 | what the ownership invariant means: live blocks are exactly those outside, in hand, or reachable, each reached by one pointer |
| Id3Parser.Reader.ReadFull | esp_extractor/src/esp_extractor_id3_parser.c:236-243 | success if and only if the reader answers the size, and then exactly the bytes asked for |
| Id3Parser.Reader.Skip | esp_extractor/src/esp_extractor_id3_parser.c:245-253 | success if and only if the reader answers 0 or the size; bytes moved plus bytes fallen short are the bytes asked for, whatever is reported; a reader that does not fail and has enough is advanced exactly |
| Id3Parser.Parser.AddExtra | esp_extractor/src/esp_extractor_id3_parser.c:126-152 | ownership is kept on every path, full list and each failing allocation included; the extra is appended whole or not at all |
| Id3Parser.Parser.KeepTextFrame | esp_extractor/src/esp_extractor_id3_parser.c:154-175 | ownership kept on every path; without allocation failure the info changes as specified, with it no field is left half changed |
| Id3Parser.Parser.KeepApicFrame | esp_extractor/src/esp_extractor_id3_parser.c:195-234 | the same for pictures, all reads in bounds; a rejected frame leaves the info unchanged whatever fails, and a kept picture loses at most its MIME type to a failed allocation |
| Id3Parser.Parser.SkipExtendedHeader | esp_extractor/src/esp_extractor_id3_parser.c:283-306 | with a sound reader, fails exactly on an out-of-range size, else leaves exactly the rest of the tag |
| Id3Parser.Parser.ParseOneFrame | esp_extractor/src/esp_extractor_id3_parser.c:307-343 | a pass keeps ownership; consumed plus fallen short plus left is constant for every reader; left decreases; and the result is the specification's step |
| Id3Parser.Parser.ParseV2 | esp_extractor/src/esp_extractor_id3_parser.c:275-349 | ownership on every return; for every reader, success has consumed exactly the announced size if and only if no skip fell short, and overlooks no failed read or skip but the last skip's; without failures the result is that of the specification |
| Id3Parser.Parser.ParseCutPadding | esp_extractor/src/esp_extractor_id3_parser.c:344-348 | a tag of five bytes of padding, cut off after its header, is parsed with the reader unmoved |
| Id3Parser.Parser.ParseWrittenTag | esp_extractor/src/esp_extractor_id3_parser.c:275-349 | end to end: a written tag is parsed to the meaning of its frames and consumed to its last byte |
| Id3V1.DecimalRoundTrip | esp_extractor/src/esp_extractor_id3_parser.c:177-193 | the genre byte is written as its decimal digits, without leading zeros |
| Id3V1.V1RoundTrip | esp_extractor/src/esp_extractor_id3_parser.c:255-273 | NUL-free trimmed fields, padded with NULs or spaces to an ID3v1 tag, come back |
| Id3V1.WrittenV1IsRead | esp_extractor/src/esp_extractor_id3_parser.c:351-368 | the dispatch on a written ID3v1 tag, whatever follows: its fields are read |
| Id3V1.WrittenV2IsRead | esp_extractor/src/esp_extractor_id3_parser.c:351-368 | the dispatch on a written ID3v2 tag, whatever follows: the fold of its frames |
| Id3V1.OtherBytesAreRefused | esp_extractor/src/esp_extractor_id3_parser.c:351-368 | anything that begins neither ID3 nor TAG is refused |
| Id3Parser.Parser.ParseV1 | esp_extractor/src/esp_extractor_id3_parser.c:255-273 | ownership on every return; each field has its new value, or its old one if its allocation failed; an error changes nothing |
| Id3Parser.Parser.Parse | esp_extractor/src/esp_extractor_id3_parser.c:351-368 | both kinds of tag: ownership on every return; consumed plus fallen short is the tag's size; without failures the result is that of the specification |
| Id3Parser.Parser.ParseWrittenV1 | esp_extractor/src/esp_extractor_id3_parser.c:255-273 | end to end: a written ID3v1 tag is parsed to its fields |
| Id3Parser.Parser.ParseWrittenV2 | esp_extractor/src/esp_extractor_id3_parser.c:351-368 | end to end from the first byte: a written ID3v2 tag is parsed to the meaning of its frames |
| Id3Parser.Parser.FreeInfo | esp_extractor/src/esp_extractor_id3_parser.c:50-70 | every block of the info is freed once and the info is cleared |
| Id3Parser.Parser.Close | esp_extractor/src/esp_extractor_id3_parser.c:411-420 | after close the live blocks are exactly those live before open |
| HlsFraming.MetaRoundTrip | esp_hls_stream/src/hls_io.c:39-43 | a chunk header is twelve bytes and is read back whatever its padding |
| HlsFraming.HeaderLayout | esp_hls_stream/src/hls_io.c:39-43 | a chunk header, byte for byte |
| HlsFraming.HeaderStep | esp_hls_stream/src/hls_io.c:294-328 | the twelve bytes at a chunk boundary are the next chunk's header, and reading them keeps the framing |
| HlsFraming.PieceStep | esp_hls_stream/src/hls_io.c:366-391 | delivering any part of the current chunk keeps the framing |
| HlsFraming.DeliveredIsPrefix | esp_hls_stream/src/hls_io.c:330-400 | what was delivered is a prefix of the payloads, media_remain is exactly the unread rest of the current chunk, and an exhausted stream means all was delivered |
| HlsIo.HlsReader.PullNextMeta | esp_hls_stream/src/hls_io.c:294-328 | announces exactly the segments of the headers it takes, empty chunks included, and stops at a payload or a bus error; the oversize error is unreachable |
| HlsIo.HlsReader.UserRead | esp_hls_stream/src/hls_io.c:330-400 | for any request and any bus behaviour the bytes handed out continue the payloads; an error hands out and loses none; is_done is reported if and only if a piece was marked last, and means all were delivered; a read is shorter than asked for only then or when the bus has refused |
| HlsIo.HlsReader.Reset | esp_hls_stream/src/hls_io.c:505-513 | a reset reader is at the start of whatever is written next |
| HlsIo.Produce | esp_hls_stream/src/hls_io.c:426-479 | the block's bos, format and payload are those of the fetcher's last answer, within the reader's bound and, if the buffer is longer than a header, within the buffer; end of stream, and nothing else, ends the writing; 200 "waiting" answers give up |
| HlsIo.AnswersFitIffRoom | esp_hls_stream/src/hls_io.c:436-443 | every answer the fetcher may give fits the buffer if and only if the buffer is longer than a header; one of the configured io_size (line 596) takes whole blocks of 512 bytes |
| HlsIo.WriteBlocks | esp_hls_stream/src/hls_io.c:426-479 | the payloads and segments written are the bytes and formats fetched, over any run of fetcher answers |
| HlsIo.Session | esp_hls_stream/src/hls_io.c:330-479 | writer and reader together: what is read and announced is a prefix of the bytes and formats fetched; the end is reported if and only if the bus has marked a piece last, and then all was read and announced; less than asked for is read only then or after a refusal |
| CodecList.RunKeepsOrder | esp_video_codec/src/video_codec_reg.c:68-114 | in every history no two codecs share type and cc, each stems from its registration, newest first |
| CodecList.LookupByHistory | esp_video_codec/src/video_codec_reg.c:43-66 | a cc finds the one match; cc 0 the most recently registered hardware codec of the type, else the earliest registered codec; nothing only if there is none |
| CodecList.CallTouchesOnlyItsCodec | esp_video_codec/src/video_codec_reg.c:68-114 | a call adds or removes the codec it names and no other |
| CodecList.RegisterErrors | esp_video_codec/src/video_codec_reg.c:68-90 | invalid argument, no memory or success exactly when; only success on a query nobody answers adds, and then the codec in front |
| CodecList.UnregisterErrors | esp_video_codec/src/video_codec_reg.c:92-114 | success exactly when a codec of that description was there, whose first is taken out; otherwise not existed and no change |
| CodecList.RegisterThenUnregister | esp_video_codec/src/video_codec_reg.c:68-114 | registering a fresh codec and unregistering it restores the list |
| CodecList.SuccessMeansPresent | esp_video_codec/src/video_codec_reg.c:68-90 | after a successful registration the exact key is present if and only if its cc is not 0, or the type was new, or it was there before |
| CodecList.CcZeroIsNotRegistered | esp_video_codec/src/video_codec_reg.c:68-90 | two calls after which cc 0 was registered with success and is not in the list |
| CodecRegistry.Registry.LibExists | esp_video_codec/src/video_codec_reg.c:43-66 | the one-pass search returns the node the lookup function names |
| CodecRegistry.Registry.AddLibs | esp_video_codec/src/video_codec_reg.c:68-90 | the heap list stays acyclic and its contents and error are those of registration |
| CodecRegistry.Registry.RemoveLibs | esp_video_codec/src/video_codec_reg.c:92-114 | the heap list stays acyclic and its contents and error are those of removal |
| CodecRegistry.Registry.GetOps | esp_video_codec/src/video_codec_reg.c:116-123 | the operations of the codec looked up, or null |
| CodecRegistry.Registry.GetCodecDesc | esp_video_codec/src/video_codec_reg.c:125-138 | the description at an index, or not-existed beyond the list |

## Left out

- HistoryTheorems.StopFlushesUnlessSliceMissed: no record is logged after the stop call, a producer in the middle of one takes no further step until the file is complete, and the saver has set `running`; the race with a saver that has not started, and what a waiting producer meets once the buffers are freed, are not modelled.
- SaveHistory.SaveHis.HisWrite: one producer at a time, as the tracer's mutex makes it; `write()` is taken to write everything it is given, so short writes and a full file system are not modelled.
- SaveHistory.SaveHis.Sleep: a producer that sleeps on a full ring is taken to wake after the saver has given back a slice; the termination of `HisWrite` rests on this fairness.
- TraceAccounting.UsageIsAccountedFor: the 32-bit counters wrap as in the code, but `size` is an unbounded integer.
- MemoryTrace.MemTrace.PrintLeak: an overflowing `int` sum is taken to wrap, which C leaves undefined.
- MemoryTrace.MemTrace.AddTraceItem: tables of more than 65535 entries, for which the 16-bit item counter would wrap, are excluded by the constructor.
- TraceScript.ParseFile: the script without options, up to its leak list; the filters, the call tree and the printing are not modelled, and what `addr2line` answers is a parameter.
- TraceThreads.TracedAddressesAreUnique: `free(NULL)`, which only writes a history record, and clients that free what they do not own are not modelled.
- Id3Parser.Parser.Parse: the checks for a null reader or parser, and the terminators of C strings.
- TracedThreads.HistoryGivesThreadsLeaks: a thread may go on before the record of its own last call is written; the mutex orders all that is traced.
- HlsIo.HlsReader.UserRead: the copy mode only; the zero-copy mode hands its block to a release routine that is not part of this repository, and what a seek does to the bus is not visible in it. The bus is modelled by its contract.
- HlsIo.DataBus.AcquireRead: a block marked last is taken to leave nothing unread, as the bus's own contract has it; `is_done` rests on this. The bus is not part of this repository.
- HlsIo.Produce: the sleep between retries and the bus's done and abort calls are its result, not effects.
- CodecRegistry.Registry.AddLibs: the pointers of a removed node are not modelled after it is freed.
- `media_lib_add_trace_mem` and `media_lib_remove_trace_mem` called by clients directly: such calls can trace any address, so they are covered by the accounting and replay results but not by address uniqueness.
- Starting and stopping the tracer, and the defaults of its configuration: `recordNum` is the resolved table size.
- Opening files, starting threads, logging, printing and stack capture.
- `cache_read`, which repeats a read until its buffer is full, and the rest of the HLS cache and URL code.
- The codec register functions that only forward to the registry, and the two lists kept side by side for decoders and encoders: one registry is modelled.
- Audio effects, JPEG, H.264, MIDI, muxers, protocols and image effects, whose implementations are not in the repository; the thin `media_lib_sal` wrappers over FreeRTOS, lwIP and mbedTLS.
