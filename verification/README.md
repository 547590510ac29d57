# A verified model of the threadstat collector

threadstat counts perf events per thread. A preloaded wrapper makes every thread of the
observed program announce itself on a message queue and retire at its end. A collector reads
the queue, opens the configured groups of perf events for each announced thread, reads them
through one shared buffer, and writes three tables that are joined on `read_id` and
`event_id`. This project models those four parts and proves what they guarantee, over every
input, every schedule and every answer of the kernel within the contracts below.

| file | models |
|---|---|
| `Prelude`, `Text` | results, machine integers, flattening; splitting, joining and trimming text |
| `Utf8` | strings with their UTF-8 bytes (sections 3 and 4 of RFC 3629) and the slicing rule of `str` |
| `EventGrammar` | the event-list language as a three-mode character automaton, its printer, and their laws |
| `EventSyntax` | the same language by its characters: equations that fix every parse, and everyday event lists |
| `ParsePerf` | `parse_event_groups`: the byte-index scanner and name resolution |
| `GroupRecord`, `GroupReader` | the group-read record in little-endian words, and the reused buffer as a real byte array |
| `PerfEvents`, `PerfGrants` | perf descriptors, the kernel's table of them, the opening of one group, and when it succeeds |
| `CsvText`, `CsvOutput` | the text of the three tables, and the writer that grows it line by line |
| `Collector` | the collector's state as a value, and its operations as functions |
| `CollectorLaws`, `CollectorTables`, `CollectorSessions`, `CollectorOrder`, `CollectorFiles` | what holds after every sequence of operations |
| `CollectorOpens`, `CollectorReads` | what an announcement opens, and what a flush and a close read |
| `CollectorFailures` | runs in which the tables do not say what happened |
| `CollectorState` | `State` as a class over the reader and the writer, method by method equal to `Collector` |
| `Messages`, `Handlers` | message decoding, and the two handlers that drive `State` |
| `Poll`, `PollLaws`, `PollReplies`, `PollerClass` | the dispatch loop as a function, its laws, what each reply does, and the mutable `Poller` class |
| `Protocol` | threads, bounded FIFO queue and collector as one labelled transition system |
| `ThreadStat` | the program: parse, register, run, flush |

**The environment** is explicit. What a system call answers is an input of the operation that
makes it: which descriptor and event id an open returns, whether an id can be queried, what a
read delivers and when, what newly allocated memory holds, in which order a hash map is walked,
what `epoll_wait` reports, when a thread is scheduled or dies. These contracts are assumed:

- a new descriptor is unused and a new event id was never given out before (an answer that
  breaks this is read as a failed call);
- a group read fails or delivers the first bytes, however few, of the group's own record: the
  size of the group, the times, and the count and id of each of its descriptors in order;
- `epoll_wait` reports registered descriptors only, each once and at most ten (anything else is
  read as an empty report);
- a walk of a map visits each key once;
- an allocation is aligned as its layout asks.

**History.** `log` (every read attempt with what it read), `session` (the operation that opened
each live thread), `calls` (every handler call), `sent`, `received`, `owner` and `ignored` record
what happened so that theorems can talk about it. They influence nothing.

**Automatic induction is off** (`{:induction false}` on every lemma): each induction is written
out. `hide` only keeps definitions a proof does not need away from the solver.

## Where the code does not meet its promise

- A group read shorter than the group is decoded all the same (the length is compared in a
  debug assertion only), and the buffer is shared, so bytes of an earlier read, of any group and
  thread, show through. `NoStaleByteIffWhole` and `TrustedIffWhole` prove that a read can be
  relied on whatever came before exactly when it is whole; `UndisturbedIff` says when a given
  short read does no harm (the buffer happened to hold the rest of the record), and with it
  `LosslessIff` says exactly when the tables are right. `EmptyReadMisattributes` shows what an
  end-of-file read does to the tables in every run, `ShortReadMisattributes` gives a run of two
  threads in which the second one's read is recorded as the first one's, and
  `ShortReadMayBeRight` one in which a short read leaves the tables right.
- Joining the arguments with commas is not always the same as parsing them one by one: when an
  argument leaves a bracket open, there are arguments to follow it that make the difference.
  `JoinExact` proves that this is the only case; some arguments that follow do no harm.
- An announcement is ignored when the kernel reuses the tid of a thread that was lost before it
  could retire (killed, or cancelled inside the queue send). `AddIgnoredIff` and
  `NothingIgnoredIff` give the exact conditions, `LostThreadHidesNext` a run.
- The description file cannot be read back when an event name holds a newline, which both bare
  and bracketed names let through (`NewlineBreaksFile`, `NewlineIsParsed`). `DescRoundTrip` and
  `FilesReadBack` are exact.
- The tables lose the name of an event whose id query fails, and, as long as no short read
  interferes, of no other (`JoinCompleteIff`); `UnqueryableLosesName` is a run.

## Model

| member | source | states |
|---|---|---|
| `Utf8.BoundaryIff` | threadstat-shared/src/parse_perf.rs:54-81 | the byte test behind `str` slicing accepts exactly the offsets between two characters |
| `Utf8.AsciiByteIsChar` | threadstat-shared/src/parse_perf.rs:54-81 | a byte below 0x80, such as the ones the scanner stops at, is a whole character: both its ends are boundaries |
| `Utf8.EncodeInjective` | threadstat-shared/src/parse_perf.rs:60-81 | equal bytes mean equal strings, so a byte slice denotes one string |
| `Utf8.StrSlice` | threadstat-shared/src/parse_perf.rs:60-81 | slicing is defined on boundaries only and returns the string with exactly those bytes |
| `Utf8.Examples` | threadstat-shared/src/parse_perf.rs:42 | the bytes of a string are those of the examples of section 7 of RFC 3629 |
| `ParsePerf.ParseEventGroups` | threadstat-shared/src/parse_perf.rs:40-92 | for every string and resolver the byte-index scanner returns the groups of the character automaton with every name resolved, or the error; it terminates and every slice lies on boundaries |
| `ParsePerf.ResolveGroupsOk` | threadstat-shared/src/parse_perf.rs:64-87 | the parse succeeds iff every name resolves, and then has the parsed shape, name for name |
| `ParsePerf.ResolveGroupsErr` | threadstat-shared/src/parse_perf.rs:64-87 | the parse fails with e iff e is the error of the first name, left to right over all groups, that does not resolve |
| `ParsePerf.JoinResolves` | threadstat-rust/src/main.rs:38-40 | outside a bracket, parsing s,t is parsing s then t: configurations concatenate and the first error wins |
| `ParsePerf.JoinedArgs` | threadstat-rust/src/main.rs:38-40 | for any number of arguments of which only the last may leave a bracket open, parsing and resolving them joined is doing so one by one, errors included |
| `ParsePerf.FirstBadArg` | threadstat-rust/src/main.rs:38-40 | one by one, the error is that of the first argument that has one, and there is none iff every argument parses |
| `EventGrammar.JoinHomomorphism` | threadstat-rust/src/main.rs:38-40 | outside a bracket a comma is a clean cut of the group list |
| `EventGrammar.JoinExact` | threadstat-rust/src/main.rs:38-40 | the cut is clean for every continuation iff the text ends outside a bracket |
| `EventGrammar.ParsePrint` | threadstat-shared/src/parse_perf.rs:38-92 | parsing undoes the canonical printer on every list of printable groups |
| `EventGrammar.ParsePrintParse` | threadstat-shared/src/parse_perf.rs:38-92 | printing what was parsed and parsing again changes nothing, for every input |
| `EventGrammar.ParserImage` | threadstat-shared/src/parse_perf.rs:38-92 | a list of groups is the parse of some text iff each group is printable (names trimmed, non-empty, comma-free, brackets as the syntax allows) |
| `EventGrammar.ParsePrintable` | threadstat-shared/src/parse_perf.rs:64-88 | no parsed group is empty and every name is non-empty, trimmed and comma-free |
| `EventGrammar.NothingLost` | threadstat-shared/src/parse_perf.rs:46-88 | the input is its parsed names, in order and disjoint, with only commas, brackets and whitespace around them |
| `EventSyntax.PlainName` | threadstat-shared/src/parse_perf.rs:47-82 | a name of printable ASCII without comma and opening bracket is one group of itself, with any spaces, tabs, line breaks and form feeds around it |
| `EventSyntax.ParseSeparators` | threadstat-shared/src/parse_perf.rs:47-53 | commas and ASCII whitespace, by code point, before anything add no group |
| `EventSyntax.ParseBare` | threadstat-shared/src/parse_perf.rs:75-88 | any other first character but an opening bracket begins a name that runs up to the next comma, opening bracket or end, and is one group of its trimmed text, or none if that is empty |
| `EventSyntax.ParseBracketed` | threadstat-shared/src/parse_perf.rs:54-74 | an opening bracket runs up to the next closing one and is one group of the trimmed, non-empty names between its commas, or none |
| `EventSyntax.ParseOpen` | threadstat-shared/src/parse_perf.rs:54-74 | a bracket that is never closed runs up to the end |
| `EventSyntax.ParseCases` | threadstat-shared/src/parse_perf.rs:46-88 | every text falls under one of these equations with a shorter rest, so they fix every parse |
| `EventSyntax.DocumentedExample` | threadstat-shared/src/parse_perf.rs:38-39 | the documented example parses to its three groups, with or without the commas around the bracket |
| `Text.TrimPadded` | threadstat-shared/src/parse_perf.rs:66-82 | trimming takes off exactly the 25 code points with the White_Space property, listed by number, at both ends |
| `GroupRecord.DecodeEncodeRecord` | perf-ffi/src/read_structs.rs:5-16 | decoding a record's little-endian bytes for its own number of events gives it back |
| `GroupRecord.DecodeInjective` | perf-ffi/src/perf_stat.rs:152-158 | different buffers never decode to the same record |
| `GroupRecord.RecordLayout` | perf-ffi/src/read_structs.rs:5-16 | the words of a record by byte offset, lowest byte first: number, enabled and running times at 0, 8 and 16, count and id of event k at 24 + 16k and 32 + 16k |
| `GroupRecord.CastOk` | perf-ffi/src/perf_stat.rs:152-158 | the casts succeed iff the buffer is aligned and has exactly the group's size, the second never fails for alignment alone, and they see the record that the bytes encode |
| `GroupReader.PerfGroupReader.EnsureSized` | perf-ffi/src/group_reader.rs:42-69 | capacity is that of the largest group requested so far, contents survive growth, new memory is aligned and holds whatever it holds, and a big enough buffer is kept |
| `GroupReader.PerfGroupReader.ReadGroup` | perf-ffi/src/group_reader.rs:79-94 | over any history of sizes: a failed read is reported, a complete one returns exactly what was written, casts never fail, and every byte not written keeps its old value |
| `GroupReader.LandedAt` | perf-ffi/src/perf_stat.rs:147-156 | the buffer after a read, byte by byte: delivered bytes first, as far as they and the group go, then what was there, then what the allocator gave |
| `GroupReader.MaxIsLargest` | perf-ffi/src/group_reader.rs:42-69 | the size the capacity is tied to is the largest one requested |
| `GroupReader.WholeReadDecodes` | perf-ffi/src/perf_stat.rs:139-158 | a record read whole decodes to itself whatever the buffer held |
| `GroupReader.NoStaleByteIffWhole` | perf-ffi/src/perf_stat.rs:147-158 | a read of k bytes decodes right over every earlier content iff k is the whole record |
| `GroupReader.EmptyReadRepeats` | perf-ffi/src/perf_stat.rs:147-158 | an end-of-file read returns the previous record of that size again |
| `PerfEvents.NewGroup` | perf-ffi/src/perf_stat.rs:70-107 | opening in sequence with a short-circuit equals the all-or-nothing opening: the failure drops what was opened and asks for nothing more |
| `PerfEvents.OpenGroupEffect` | perf-ffi/src/perf_stat.rs:70-107 | a group that fails partway leaves the descriptor table as it was; one that opens adds exactly its own new descriptors |
| `PerfEvents.OpenGroupOrder` | perf-ffi/src/perf_stat.rs:70-107 | a successful group has one descriptor per configuration, in order, under its name, led by the first; only an empty input is refused as empty |
| `PerfGrants.OpenGroupIff` | perf-ffi/src/perf_stat.rs:70-107 | a group of any size opens iff it is not empty and every one of its requests is granted, and then holds exactly the descriptors granted, in order; otherwise it reports the first refusal and the descriptors are as before |
| `CsvText.EventRoundTrip` | threadstat-shared/src/csv_writer.rs:35-43 | splitting the event file and reading its decimals recovers the rows written |
| `CsvText.ReadRoundTrip` | threadstat-shared/src/csv_writer.rs:36-56 | the same for the read file |
| `CsvText.DescRoundTrip` | threadstat-shared/src/csv_writer.rs:37-60 | the description file reads back as the rows written iff no name holds a comma or a newline |
| `CsvText.FileLayout` | threadstat-shared/src/csv_writer.rs:35-60 | the headers and the columns of each line of the three files, literally |
| `CsvText.DecimalIs` | threadstat-shared/src/csv_writer.rs:41-60 | numbers are written in decimal digits of the right worth without leading zeros |
| `CsvOutput.CsvWriter.WriteEvent` | threadstat-shared/src/csv_writer.rs:41-43 | appends one line; the file stays the text of the rows written |
| `CsvOutput.CsvWriter.WriteRead` | threadstat-shared/src/csv_writer.rs:45-56 | appends one line; the file stays the text of the rows written |
| `CsvOutput.CsvWriter.WriteDesc` | threadstat-shared/src/csv_writer.rs:58-60 | appends one line; the file stays the text of the rows written |
| `CollectorState.State.constructor` | threadstat-shared/src/state.rs:106-118 | starts with no threads, empty tables and read id 0 |
| `CollectorState.State.OpenTid` | threadstat-shared/src/state.rs:17-45 | does what `Collector.OpenTid` says, which `CollectorOpens` spells out: early return for a known tid, failing groups left out, descriptions of queryable ids written in order |
| `CollectorState.State.FlushGroups` | threadstat-shared/src/state.rs:47-80 | reads each group once in order through the shared buffer, short reads included, numbering attempts and writing for each success the rows of what the buffer then holds |
| `CollectorState.State.CloseTid` | threadstat-shared/src/state.rs:82-92 | does what `Collector.CloseTid` says, which `CollectorReads.CloseReads` spells out: one last read of each group, then the thread and its descriptors are gone |
| `CollectorState.State.FlushAll` | threadstat-shared/src/state.rs:94-104 | does what `Collector.FlushAll` says, which `CollectorReads.FlushReads` spells out: each group of each live thread is read once in the map's order |
| `CollectorReads.FlushReads` | threadstat-shared/src/state.rs:54-104 | in every reachable state and for every walk, each attempt of a flush has the names and event ids of its own group's descriptors, in order, and the time, counts and bytes that the kernel answered on that group's leader; no group of a live thread is left out, the order is the walk's, and every open descriptor is read in exactly one attempt |
| `CollectorReads.CloseReads` | threadstat-shared/src/state.rs:54-92 | in every reachable state a close reads each group of its thread once, in order, in the same sense |
| `CollectorOpens.OpenTidOpens` | threadstat-shared/src/state.rs:17-44 | the announcement of an unknown thread opens exactly the configurations none of whose requests fail, in order, one descriptor per event under its name; that of a known one does nothing |
| `CollectorOpens.OpensAll` | threadstat-shared/src/state.rs:21-33 | when every open succeeds the thread gets every configured group, of any size, group k being configuration k event by event |
| `CollectorOpens.SessionGroups` | threadstat-shared/src/state.rs:21-44 | what a session reads is exactly what its announcement opened, for as long as it is open |
| `CollectorOpens.OpenTidDescribes` | threadstat-shared/src/state.rs:35-42 | an announcement adds one description per descriptor whose id can be queried, with its event id, name and thread, and no other; all of them in order when all can be |
| `CollectorLaws.FdConservation` | threadstat-shared/src/state.rs:21-44 | after every sequence of operations the open perf descriptors are exactly those of the live threads' groups, each held in one place |
| `CollectorLaws.CloseReleases` | threadstat-shared/src/state.rs:82-92 | closing a thread releases all of its descriptors and no others |
| `CollectorLaws.LiveGroupsFollow` | threadstat-shared/src/state.rs:21-33 | after every sequence of operations each live thread's groups are configured groups in configured order, each complete with one descriptor per event led by its first, the failed ones skipped |
| `CollectorTables.Lossless` | threadstat-shared/src/state.rs:35-79 | after every sequence of operations in which no read was disturbed, in particular when all were whole, joining the three tables on read id and event id is exactly the history of (event, tid, name, count, timestamp, times), in order |
| `CollectorTables.LosslessIff` | threadstat-shared/src/state.rs:35-79 | after every sequence of operations the join is everything the kernel counted iff every event read has a queryable id and, wherever a read stopped short, the buffer already held the rest of its record |
| `CollectorTables.UndisturbedIff` | perf-ffi/src/perf_stat.rs:147-158 | the record decoded after a read is the one counted (but for the unused first word) iff the buffer held, from byte 8 on, what the read did not deliver |
| `CollectorTables.TrustedIffWhole` | perf-ffi/src/perf_stat.rs:139-158 | a read is right whatever the buffer held before iff it is whole |
| `CollectorTables.EmptyReadMisattributes` | perf-ffi/src/group_reader.rs:79-94 | in every run, a read that delivers nothing right after a whole one of the same size is recorded as that one again, names, thread, counts and times, under the later timestamp |
| `CollectorFailures.ShortReadMisattributes` | threadstat-shared/src/state.rs:54-79 | a run of two threads in which the second one's read joins to the first one's event |
| `CollectorFailures.ShortReadMayBeRight` | threadstat-shared/src/state.rs:54-79 | a run with a read that delivers nothing whose tables are right all the same, so whole reads are sufficient and not necessary |
| `CollectorTables.JoinCompleteIff` | threadstat-shared/src/state.rs:35-42 | when no read was disturbed, every event row joins iff every event that was read has a queryable id |
| `CollectorFailures.UnqueryableLosesName` | threadstat-shared/src/state.rs:35-42 | a run with an unqueryable id whose event row joins to nothing |
| `CollectorTables.ReadIdAccounting` | threadstat-shared/src/state.rs:54-79 | the counter equals the attempts made; read rows strictly increase and are exactly the successful attempts; a success on n events has n event rows, a failure none |
| `CollectorSessions.SessionAccounting` | threadstat-shared/src/state.rs:82-104 | each group of a session has been read once per flush while it was open, and once more iff it was closed |
| `CollectorSessions.FinalFlushAccounting` | threadstat-rust/src/main.rs:82-85 | with a flush last, each group of each session is read once per earlier flush during it and exactly one last time |
| `CollectorSessions.AttemptsBelongToSessions` | threadstat-shared/src/state.rs:82-104 | nothing is ever read outside a session of its thread |
| `CollectorOrder.FlushOrderIrrelevant` | threadstat-shared/src/state.rs:94-104 | any two walks of the map make the same attempts up to order, whatever the reads deliver |
| `CollectorOrder.FlushSamplesAgree` | threadstat-shared/src/state.rs:94-104 | in every reachable state, any two walks of the map yield tables that join to the same measurements up to order, as long as no read was short |
| `CollectorSessions.FlushBijection` | threadstat-shared/src/state.rs:94-104 | for every walk a flush numbers a contiguous block in bijection with the pairs (live thread, group) |
| `CollectorFiles.FilesReadBack` | threadstat-shared/src/csv_writer.rs:35-60 | with configurations parsed from an event list, the description file reads back iff no described name holds a newline; the other files always do |
| `CollectorFiles.FilesReconstruct` | threadstat-shared/src/csv_writer.rs:35-60 | with a newline-free event list, reading the three files and joining them gives the history of measurements if no read was disturbed, and everything counted iff every event read is queryable too |
| `CollectorFailures.NewlineBreaksFile` | threadstat-shared/src/parse_perf.rs:75-88 | every name with a newline that can be written bare is parsed, reaches the description file of the first thread, and that file does not read back |
| `CollectorFailures.NewlineIsParsed` | threadstat-shared/src/parse_perf.rs:54-88 | such a name exists, and brackets let it through as well |
| `Messages.FlagRoundTrip` | threadstat-message/src/lib.rs:39-50 | flag 1 announces, flag 2 retires, exactly the others are refused, and decoding inverts encoding |
| `Handlers.QueueHandler` | threadstat-shared/src/handlers.rs:5-17 | flag 1 opens the thread, flag 2 closes it, anything else and any failed receive leaves the state alone, and the reply is always to continue |
| `Handlers.TimerHandler` | threadstat-rust/src/main.rs:67-80 | an expiration flushes every thread; a failed read is reported and changes nothing |
| `PollerClass.Poller.RegisterMut` | poll/src/lib.rs:68-92 | stores the source under an unused key and keeps slab and interest set in bijection |
| `PollerClass.Poller.Deregister` | poll/src/lib.rs:99-115 | removes the source from both sides, does nothing for an unknown key, and never fails |
| `PollerClass.Poller.PollOnce` | poll/src/lib.rs:124-193 | equals the dispatch function, interrupted waits repeated and the empty set reported as a stop; every key lookup succeeds |
| `PollerClass.Poller.Run` | poll/src/lib.rs:197-208 | repeats `PollOnce` until it stops or fails, for as long as it is observed |
| `PollLaws.RunExtends` | poll/src/lib.rs:197-208 | a longer observation of a run continues the shorter one: verdicts are final and a waiting run resumes where it was, so the finite observations determine the unbounded loop |
| `PollLaws.BatchSemantics` | poll/src/lib.rs:152-186 | one batch calls a prefix of its actionable events, each once, in order, each by its own handler; only a stop or a live source's error cuts it short; exactly the sources whose call removed them are gone |
| `PollLaws.EventRunsItsSource` | poll/src/lib.rs:157-165 | the key delivered for a descriptor is the one its source is stored under |
| `PollLaws.NoSpinning` | poll/src/lib.rs:167-193 | over every run the slab and the interest set agree, a source reported as hung up is never called again, and sources left plus sources removed is constant |
| `PollLaws.EndsInTime` | poll/src/lib.rs:176-208 | a run whose every round removes a source ends in fewer rounds than it had sources |
| `PollLaws.WaitsOnSources` | poll/src/lib.rs:188-208 | from a non-empty start `epoll_wait` is never entered on an empty set |
| `PollLaws.StopsFor` | poll/src/lib.rs:176-208 | a run stops only for a handler's stop or an emptied set |
| `PollReplies.RunReplies` | poll/src/lib.rs:152-208 | over every run: a call that replies with a stop is the last and the run has stopped; an error of a source not hung up (flag bits 0x18) is the last and the run fails with it; a removal, and any reply but a stop of a source hung up, takes the source out for good and nothing else does; only sources reported with a bit of 0x19 are called; and a run ends only for these, a failed wait or an empty set |
| `PollReplies.WaitReplies` | poll/src/lib.rs:139-193 | one wait: an interrupted one is repeated, a failed one is the error, and of a batch every event with a bit of 0x19 is called in order with its own descriptor, flags and input, unless an earlier call asked for the end; an emptied set stops |
| `Protocol.PendingReplay` | wrapper/wrapper.c:55-77 | in every reachable state, replaying the pending queue registers exactly the tids whose last sent message is an ADD, and the queue is never over capacity |
| `Protocol.RemoveAlwaysFinds` | threadstat-shared/src/state.rs:82-92 | a REMOVE always finds its tid registered, even when threads are lost |
| `Protocol.AddIgnoredIff` | threadstat-shared/src/state.rs:17-20 | an ADD is ignored iff the life that last used its tid was lost without retiring |
| `Protocol.NothingIgnoredIff` | threadstat-shared/src/handlers.rs:5-17 | over every run, every message received is acted on iff tids are reused only after their REMOVE |
| `Protocol.Pairing` | wrapper/wrapper.c:55-77 | when tids are reused only after REMOVE, each ADD opens its own session and each REMOVE closes the session its own life opened |
| `Protocol.LifeMessages` | wrapper/wrapper.c:55-77 | in every reachable state a life has sent nothing, its ADD, or its ADD and then its REMOVE |
| `Protocol.Sends` | wrapper/wrapper.c:55-77 | a thread puts its tid with flag 1 on the queue first, with flag 2 once after that, each only while there is room, and waits otherwise |
| `Protocol.Receives` | threadstat-shared/src/handlers.rs:5-17 | the oldest packet is received; flag 1 opens its tid, flag 2 closes it, any other does nothing |
| `Protocol.LifeRuns` | wrapper/wrapper.c:55-77 | from every reachable state with an empty queue a new life under a free tid can run to its end, opened by its ADD and closed by its REMOVE with nothing ignored |
| `Protocol.LostThreadHidesNext` | threadstat-shared/src/state.rs:17-20 | a run in which a lost thread makes the collector ignore its successor |
| `Protocol.ReachIsRun` | threadstat-shared/src/handlers.rs:5-17 | the collector inside every reachable state is the result of operations that open and close as the received packets say, in their order, and flush once per tick, so the collector's laws hold of it |
| `Protocol.ReadsPerLife` | threadstat-shared/src/handlers.rs:5-17 | when tids are reused only after REMOVE, each group of a life's own session has been read once per tick between the arrivals of its ADD and its REMOVE, and once more iff the REMOVE has arrived |
| `ThreadStat.Collect` | threadstat-rust/src/main.rs:38-85 | the program ends with the parse error; with its poller's error; or, after a stop, with every live thread flushed once more, as its last operation |
| `ThreadStat.ServeQueue` | threadstat-rust/src/main.rs:66 | the queue handler on the mutable state does what the registered handler does to the context |
| `ThreadStat.ServeTimer` | threadstat-rust/src/main.rs:67-80 | the timer handler on the mutable state does what the registered handler does to the context |
| `ThreadStat.ProgramRun` | threadstat-rust/src/main.rs:61-82 | the operations performed are one per queue call and a flush per expired timer call, in call order; the signal source is never lost and the set never runs empty; the loop stops iff the signal source has been called, as the last call, and fails only for a failed wait or a live timer's failed read |
| `ThreadStat.FinishedRun` | threadstat-rust/src/main.rs:82-85 | of the exit itself: finished iff the signal source has been called; then its operations are those of the handler calls and a last flush, each group of each opened session was read once per earlier flush during it and exactly one last time, and the tables join back to what was read exactly under the conditions of `Lossless` and `LosslessIff`; a poller's error is the program's |

## Left out

- System calls, generated bindings, build scripts, `signals`, `timerfd` arming and the floating-point period: present only as inputs with the contracts above.
- libpfm and `string_intern`: one abstract resolver from a name to an attribute or an error. A name with an interior NUL is an error inside brackets but aborts the process outside them; the model treats both as the resolver's error, which agrees for the NUL-free arguments a process can receive.
- `perf_event_config.rs` and the read-format bits: a configuration is an attribute number and a name.
- Width of the counter: `read_id` is unbounded here; the source would wrap after 2^64 reads.
- Allocation failure and the debug assertions: the build without them is modelled (with them, a short read panics); words are little-endian.
- Failures of writing and of buffered flushing: every row is written.
- PollerClass.Poller.Run: the unbounded loop is observed for a finite list of waits and reported as blocked when the list ends; `PollLaws.RunExtends` proves that longer observations only continue shorter ones.
- Panics of the signal handler on a failed read, and the process exit that a poll error causes in the program.
- Handlers are functions of the context and of what their call reads: state of their own that a closure could carry between calls is not modelled. The program's handlers carry none.
- Queue creation, permissions, unlinking and the depth fallback; all messages have one priority, so order is first in, first out.
- Which life of a reused tid a late perf open attaches to: pairing is claimed for messages and sessions.
- wrapper.c is modelled on values, as steps of the transition system, because its sends interleave with other threads; memory handling and `dlsym` are not modelled.
- PerfEvents.NewGroup: the group is built on values; descriptor ownership is the kernel table, not an object per descriptor.
- Logging, `Display` implementations and argument parsing.
