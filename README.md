# LTTV core in Dafny

This project models the computational core of the Linux Trace Toolkit Viewer (LTTV), a C program that reads kernel traces recorded by LTT/LTTng. The core covered here is:

- decoding tracefiles;
- rebuilding the kernel state the events describe;
- filtering and merging events;
- the background and foreground computation schedulers of the GUI;
- some helper programs.

Each file under `src/` is one module, and the modules follow the C sources:

| module | models |
|---|---|
| `LttTime`, `Wrappers`, `CStdlib`, `ByteOrder` | Shared values and conversions: the `(sec, nsec)` time, `Option`/`Result`, `strtol`/`strtoul`/`atoi`/`atol` on an LP64 host, and fixed-width integers read in either byte order. |
| `TraceHeader` | The sub-buffer header check (magic number, byte order, trace version 2.3) and `ltt_get_int`/`ltt_get_uint`. |
| `TracefileName` | `get_tracefile_name_number`: the kernel `channel_cpu` form with its `flight-` prefix, and the userspace `name-tid.pgid.creation` form. |
| `EventHeader` | The compact event header: a 5-bit id over a 27-bit TSC, the extended ids 29, 30 and 31, and the rebuilt 64-bit TSC. |
| `TracefileReader` | The `LttTracefile` object, whose block and current event `ltt_seek_next_event`, `ltt_tracefile_read_update_event`, `ltt_update_event_size` and `ltt_tracefile_read_seek` update in place. |
| `TracefileSeek` | `ltt_tracefile_seek_time` (the binary search over blocks and the scan inside a block) and the trace and group time spans. |
| `StateStacks`, `StateTables`, `StateProcess`, `KernelState` | `state.c`: the execution, mode and function stacks; the growable id tables; process records; and the `LttvTraceState` object with its event handlers (scheduler switch, system calls, traps, IRQs, soft IRQs, block devices, function calls). |
| `FilterField`, `FilterOps`, `FilterValue`, `FilterTree`, `FilterParse` | `filter.c`: field paths, operators, values, tree evaluation with short circuits, and the one-pass expression parser behind `lttv_filter_update`. |
| `TraceContext` | `tracecontext.c`: the tracefile order of the merge queue, the k-way merge loop, saved positions and their comparison, and the seek hooks that count events forward and backward. |
| `Sync` | `sync.c`: TCP acknowledgement predicates, connection equality and hash, packet equality, `timeDiff`, and the matching step of `matchEvents`. |
| `DepAnalysis` | `depanalysis.c`: the bounded low-level state stack, the high-level state and its history, the bisection for the first state ending after a time, time strings and swapper pids. |
| `GenEvent` | `genevent.c`: fixed-size and local type rules, base names in a `PATH_MAX` buffer, alignment expressions, parameter lists, output file names and `check_args`. |
| `WindowTraces` | `lttvwindowtraces.c`: the per-trace lock, ready and in-progress flags; the background request and notification queues; and the queue moves of the background scheduler. |
| `TimeBar`, `Callbacks` | The non-GTK parts of the trunk `callbacks.c`: reading a pasted time, clamping the time-bar entries, `SetTraceset`'s window reset, the foreground events-request scheduler, the re-entry guards of the time managers, and `stop_processing`. |
| `XenoThreadList` | `xenoltt_threadlist.c`: the row order, the key hash and equality, and the add, remove and clear bookkeeping. |

Code that computes values is modelled as functions and lemmas. Code that updates objects in place is modelled as classes whose methods are proved against specification functions:

- `TracefileReader.Tracefile`, `TracefileSeek.TimeCursor`, `KernelState.TraceState`;
- `FilterParse.Filter`, `TraceContext.TracesetContext`, `Sync.SyncState`;
- `DepAnalysis.Process`, `WindowTraces.Trace`, `WindowTraces.Registry`;
- `Callbacks.Tab`, `XenoThreadList.ThreadList`.

In several places the C code does not do what it evidently means, and these are listed under "Findings". For each one, the model keeps the code as written in a member whose name ends in `AsWritten`, or in a lemma that exhibits the input. The rest of the model uses the corrected definition. Wherever the code and its comments or documentation disagree, the model follows the code.

## Model

| member | source | states |
|---|---|---|
| `TraceHeader.ParseTraceHeader` | trunk/lttv/ltt/tracefile.c:131-211 | a header is accepted exactly when its magic is the native or the byte-reversed LTT magic and its version is 2.3; `reverse_bo` is set exactly for the reversed magic; the 27/5 split of the 32-bit word, `tsc_mask + 1 == tsc_mask_next_bit == 2^27`; the start time is (seconds, microseconds × 1000) |
| `TraceHeader.ReversedMagicIsSwapped` | trunk/lttv/ltt/tracefile.c:134-137 | the native magic written in one byte order reads as the reversed magic in the other, which is why the second test detects a foreign byte order |
| `TraceHeader.Pow2Of27` | trunk/lttv/ltt/tracefile.c:163-166 | `1ULL << 27` is 0x800_0000 |
| `TraceHeader.FieldWidth` | trunk/lttv/ltt/tracefile.c:2464-2474 | the widths `ltt_get_int`/`ltt_get_uint` read are 1, 2, 4 or 8 bytes, an unknown size reading 8 |
| `TraceHeader.GetInt` | trunk/lttv/ltt/tracefile.c:2460-2477 | a signed field lies in the two's complement range of its width |
| `TraceHeader.GetUIntField` | trunk/lttv/ltt/tracefile.c:2488-2506 | the unsigned reading of a field is below 2^(8·width) |
| `TraceHeader.GetUIntSignExtends` | trunk/lttv/ltt/tracefile.c:2493 | the one-byte case as written turns the byte 0xFF into 2^64−1; read as unsigned it is 255 |
| `TraceHeader.GetIntAgreesWithGetUInt` | trunk/lttv/ltt/tracefile.c:2460-2506 | the signed and the unsigned reader see the same bits: equal modulo 2^(8·width), and the signed value is negative exactly when the unsigned one is in the upper half |
| `TraceHeader.SignedModulo` | trunk/lttv/ltt/tracefile.c:2460-2477 | a two's complement reading is the raw value modulo 2^(8·width), negative exactly for the upper half |
| `ByteOrder.GetUInt` | trunk/lttv/ltt/tracefile.c:2488-2506 | an n-byte unsigned read, swapped when the byte order is reversed, is below 256^n |
| `ByteOrder.EncodeRoundTrip` | trunk/lttv/ltt/tracefile.c:2488-2506 | writing a value in either byte order and reading it back with the same `reverse_bo` gives the value |
| `TracefileName.GetTracefileNameNumber` | trunk/lttv/ltt/tracefile.c:363-470 | the result of `get_tracefile_name_number` and the new contents of the name buffer (separators blanked in place) are those of `NameNumber` on the old contents |
| `TracefileName.SkipLeadingSlashes` | trunk/lttv/ltt/tracefile.c:378-383 | the loop stops at the index `SkipSlashes` gives |
| `TracefileName.SkipSlashes` | trunk/lttv/ltt/tracefile.c:378-383 | the skipped prefix is all '/', stops at the first other character and never skips the last character |
| `TracefileName.FindLastUnderscore` | trunk/lttv/ltt/tracefile.c:386-388 | the backward loop stops at the last '_' or at −1 |
| `TracefileName.LastIndexOf` | trunk/lttv/ltt/tracefile.c:386-388 | the index holds the character and no later index does; −1 when there is none |
| `TracefileName.NameNumberPerCpu` | trunk/lttv/ltt/tracefile.c:389-466 | a name with an '_' is read as a per-CPU name and is not modified |
| `TracefileName.PerCpuFields` | trunk/lttv/ltt/tracefile.c:446-466 | a per-CPU result's number fits the unsigned `num` |
| `TracefileName.PerCpuRoundTrip` | trunk/lttv/ltt/tracefile.c:378-466 | any number of leading '/', a channel without '_' and a decimal CPU give `PerCpu(channel without "flight-", cpu mod 2^32)` and leave the name as it was |
| `TracefileName.PerCpuFieldsOf` | trunk/lttv/ltt/tracefile.c:446-466 | "channel_cpu" reads as the channel with any "flight-" prefix dropped and the CPU number |
| `TracefileName.NameNumberUserspace` | trunk/lttv/ltt/tracefile.c:389-445 | a name without '_' is read as a userspace name, the leading slashes untouched |
| `TracefileName.ParseUserspace` | trunk/lttv/ltt/tracefile.c:389-445 | the userspace branch returns, and leaves in the buffer, what `UserspaceFields` gives |
| `TracefileName.ReadUserspaceFields` | trunk/lttv/ltt/tracefile.c:403-445 | reading the three numbers after the '-' gives the `UserspaceFields` result and buffer |
| `TracefileName.ReadPgidAndCreation` | trunk/lttv/ltt/tracefile.c:420-445 | the pgid and creation fields are read as `UserspaceFields` says |
| `TracefileName.BlankAndRead` | trunk/lttv/ltt/tracefile.c:405-418 | the first '.' from the start index is blanked and the number read there is `ReadField` of the blanked name |
| `TracefileName.FindIndex` | trunk/lttv/ltt/tracefile.c:390-402 | each forward search loop stops at the `FindFrom` index |
| `TracefileName.ReadFieldIsStrToUL` | trunk/lttv/ltt/tracefile.c:412-416 | a numeric field is refused when `strtoul` reads no digit or returns `ULONG_MAX`, and is its value otherwise |
| `TracefileName.UserspaceNoDash` | trunk/lttv/ltt/tracefile.c:402 | with no '-' in range the name is refused and not modified |
| `TracefileName.UserspaceBadTid` | trunk/lttv/ltt/tracefile.c:405-416 | a bad tid refuses the name after blanking the first '.' only |
| `TracefileName.UserspaceComplete` | trunk/lttv/ltt/tracefile.c:403-445 | after both '.' are blanked, the result is built from the tid, pgid and creation read in turn |
| `TracefileName.UserspaceRoundTrip` | trunk/lttv/ltt/tracefile.c:389-445 | "a/b/c-tid.pgid.creation" with decimal fields below their maximum reads back as those three numbers |
| `TracefileName.UserspaceOf` | trunk/lttv/ltt/tracefile.c:403-445 | three decimal fields after the '-' are read back exactly |
| `TracefileName.DashGuardOvershoot` | trunk/lttv/ltt/tracefile.c:394-402 | as written, a name without '/' passes the `i == raw_name_len` guard with the index two past its end |
| `TracefileName.DashGuardMetadata` | trunk/lttv/ltt/tracefile.c:394-402 | the "metadata" tracefile is such a name |
| `TracefileName.UserspaceNeedsDash` | trunk/lttv/ltt/tracefile.c:394-402 | with the guard at or past the end, a name without two '/' and a '-' is refused unchanged, and every accepted name has its '-' inside the name |
| `EventHeader.DecodeHeader` | trunk/lttv/ltt/tracefile.c:1279-1316 | the compact id is below 32 and the timestamp below 2^27; the payload starts after the header and inside the block |
| `EventHeader.DecodeExtended` | trunk/lttv/ltt/tracefile.c:1285-1316 | the extended header keeps the compact id and timestamp and carries a full TSC exactly for id 29 |
| `EventHeader.ReadSize` | trunk/lttv/ltt/tracefile.c:1289-1294 | the size fits 32 bits and takes 2 bytes, or 6 when the 16-bit size is the 0xFFFF escape |
| `EventHeader.ReadField` | trunk/lttv/ltt/tracefile.c:1279-1316 | a read succeeds exactly inside the block and yields a value of its width |
| `EventHeader.DecodeEncode` | trunk/lttv/ltt/tracefile.c:1279-1316 | decoding the encoding of any well-formed header, in either byte order and with any payload after it, gives the header back |
| `EventHeader.DecodeEncodeExtended` | trunk/lttv/ltt/tracefile.c:1285-1316 | the extended part decodes back to the header for ids 29, 30 and 31 |
| `EventHeader.ExtendedWithSize` | trunk/lttv/ltt/tracefile.c:1285-1305 | ids 29 and 30 decode the 16-bit id, the size (short or escaped) and, for 29, the 64-bit TSC |
| `EventHeader.WordSplits` | trunk/lttv/ltt/tracefile.c:1280-1281 | the word splits into `event_id = w >> 27` and `timestamp = w & tsc_mask` and is rebuilt from them |
| `EventHeader.DecodeWord` | trunk/lttv/ltt/tracefile.c:1279-1283 | the header word read in the trace's byte order determines the compact id and timestamp |
| `EventHeader.LowBits` | trunk/lttv/ltt/tracefile.c:1318-1328 | `tsc & tsc_mask` is below 2^27 |
| `EventHeader.HighBits` | trunk/lttv/ltt/tracefile.c:1318-1328 | `tsc & ~tsc_mask` is a multiple of 2^27 and adds up with the low bits to the TSC |
| `EventHeader.NextTscLowBits` | trunk/lttv/ltt/tracefile.c:1318-1328 | the rebuilt TSC ends in the event's 27 bits and stays a 64-bit value |
| `EventHeader.NextTscIsNearestAfter` | trunk/lttv/ltt/tracefile.c:1318-1328 | away from the 64-bit top, the rebuilt TSC is the only value in [tsc, tsc + 2^27) with the event's low bits |
| `EventHeader.NextTscWraps` | trunk/lttv/ltt/tracefile.c:1320-1323 | at the top of the 64-bit range the overflow case wraps around to the event's low bits |
| `EventHeader.BufferTscCarriesTimestamp` | trunk/lttv/ltt/tracefile.c:1297-1329 | after an event the buffer TSC is the event's full TSC for id 29, and otherwise ends in the event's 27 bits |
| `EventHeader.ExtendedId29KeepsStaleTsc` | trunk/lttv/ltt/tracefile.c:1286-1318 | as written, an id-31 header whose 16-bit id is 29 skips the TSC update and keeps a stale TSC; the corrected rule takes the event's bits |
| `TracefileReader.Limit` | trunk/lttv/ltt/tracefile.c:1590-1601 | `buf_size - lost_size` computed in 32 bits; the plain difference when lost_size ≤ buf_size |
| `TracefileReader.SeekNext` | trunk/lttv/ltt/tracefile.c:1579-1619 | offset 0 moves past the buffer header; otherwise a negative data size is the fatal error and the offset moves past the payload; ERANGE exactly at the limit; success only strictly below it; past it is the failed assertion |
| `TracefileReader.SettleSize` | trunk/lttv/ltt/tracefile.c:1546-1575 | sizes agree exactly when they are equal or the event size is `G_MAXUINT` (then replaced by the data size); otherwise the read is fatal |
| `TracefileReader.Tracefile.constructor` | trunk/lttv/ltt/tracefile.c:224-292 | Opening a tracefile maps its first block and positions it at offset 0. The byte order and the buffer sizes it was given are kept. |
| `TracefileReader.Tracefile.MapBlock` | trunk/lttv/ltt/tracefile.c:1360-1442 | `map_block` makes the block current, sets the buffer TSC and the event TSC to its begin cycle count, and the event offset to 0 |
| `TracefileReader.Tracefile.SeekNextEvent` | trunk/lttv/ltt/tracefile.c:1579-1619 | the status and the new offset are those of `SeekNext` at the current limit; nothing else changes |
| `TracefileReader.Tracefile.ReadSeek` | trunk/lttv/ltt/tracefile.c:1182-1210 | blocks only move forward, and every block skipped over is empty; ERANGE at the limit of the last block; on success the event is the successor `ltt_seek_next_event` computes in the same block (just past the header at offset 0, else at data plus data size), or the first event just past the header of a later block with that block's TSC, every other field kept; that offset is below the limit unless the header alone passes it |
| `TracefileReader.Tracefile.UpdateEventSize` | trunk/lttv/ltt/tracefile.c:1494-1576 | the data size is the payload size; success exactly when the sizes settle; the event size is then the data size |
| `TracefileReader.Tracefile.DecodeEvent` | trunk/lttv/ltt/tracefile.c:1264-1343 | a header that does not decode is fatal and changes nothing; otherwise the buffer TSC follows `BufferTsc` and the event takes the decoded fields |
| `TracefileReader.Tracefile.ReadUpdateEvent` | trunk/lttv/ltt/tracefile.c:1264-1352 | after `ltt_tracefile_read_update_event` the event TSC is the new buffer TSC, the timestamp, id and data position are the decoded ones, the data size is the payload size, and success means the sizes settled |
| `TracefileReader.Tracefile.Read` | trunk/lttv/ltt/tracefile.c:1165-1180 | `ltt_tracefile_read` only moves forward; ERANGE only at the last block; every skipped block is empty; on success the event sits where `ReadSeek` lands, its header decodes there, the TSC is rebuilt from the buffer TSC of that block, and the event size equals the payload size |
| `TracefileSeek.TimeCursor.constructor` | trunk/lttv/ltt/tracefile.c:976-981 | A new cursor is on block 0, before its first event. |
| `TracefileSeek.TimeCursor.MapBlock` | trunk/lttv/ltt/tracefile.c:1360-1442 | Mapping block i positions the cursor before that block's first event. The current event time is left unchanged. |
| `TracefileSeek.TimeCursor.Read` | trunk/lttv/ltt/tracefile.c:1165-1180 | a successful read consumes exactly the next event of the trace in order; ERANGE only when all events are consumed |
| `TracefileSeek.TimeCursor.SeekTime` | trunk/lttv/ltt/tracefile.c:971-1060 | `ltt_tracefile_seek_time` on blocks in order, which may touch: success leaves the cursor on the first event at or after the time; ERANGE means every event is before it |
| `TracefileSeek.TimeCursor.SearchBlocks` | trunk/lttv/ltt/tracefile.c:1005-1051 | the block search, corrected so that a time in a gap scans from the next block and a block beginning at the time sends the search lower, ends on the first event at or after the time, or ERANGE when there is none |
| `TracefileSeek.TimeCursor.ScanFromBlock` | trunk/lttv/ltt/tracefile.c:1026-1048 | scanning from a block whose predecessors are all earlier finds the first event at or after the time |
| `TracefileSeek.TimeCursor.Scan` | trunk/lttv/ltt/tracefile.c:1026-1048 | the sequential read loop stops at the first event at or after the time |
| `TracefileSeek.TimeCursor.SkipExhausted` | trunk/lttv/ltt/tracefile.c:1182-1210 | moving past empty blocks consumes nothing; it fails only when all events are consumed |
| `TracefileSeek.SpanBoundsEvents` | trunk/lttv/ltt/tracefile.c:995-1003 | a time after the last block's end is after every event, and every event is at or after the first block's begin |
| `TracefileSeek.BeforeBlock` | trunk/lttv/ltt/tracefile.c:1038-1041 | every event before a block that begins strictly before the time is earlier than the time, even when blocks touch |
| `TracefileSeek.EventsUpToEnd` | trunk/lttv/ltt/tracefile.c:1041-1043 | every event up to a block that ends before the time is earlier than the time |
| `TracefileSeek.SearchAsWritten` | trunk/lttv/ltt/tracefile.c:1004-1050 | the unsigned binary search as written: any block it returns exists |
| `TracefileSeek.GapAborts` | trunk/lttv/ltt/tracefile.c:1036-1038 | for a time in the gap before the third of four blocks, `high = block_num - 1` wraps and the search fails although an event at or after the time exists |
| `TracefileSeek.TouchingBlocksSkipAsWritten` | trunk/lttv/ltt/tracefile.c:1033-1050 | for three touching blocks and a time equal to the second block's begin, the search as written scans from the second block, although the first block's last event is at that time |
| `TracefileSeek.TimeCursor.TimeSpan` | trunk/lttv/ltt/tracefile.c:879-897 | a tracefile spans from its first block's begin to its last block's end |
| `TracefileSeek.MinStartIsMinimum` | trunk/lttv/ltt/tracefile.c:905-940 | the trace start is at or before every online tracefile's start and is one of them, or infinite when none is online |
| `TracefileSeek.MaxEndIsMaximum` | trunk/lttv/ltt/tracefile.c:905-940 | the trace end is at or after every online tracefile's end and is one of them, or zero when none is online |
| `TracefileSeek.TraceTimeSpan` | trunk/lttv/ltt/tracefile.c:928-940 | `ltt_trace_time_span_get` returns the minimum start and maximum end over all groups |
| `TracefileSeek.GroupTimeSpan` | trunk/lttv/ltt/tracefile.c:905-925 | `group_time_span_get` folds one group into the running minimum and maximum |
| `TraceHeader.GetUIntAsWritten` | trunk/lttv/ltt/tracefile.c:2488-2506 | definition of `ltt_get_uint` as written, with the 1-byte field read through `gint8`; its properties: `TraceHeader.GetUIntSignExtends` |
| `TracefileName.NameNumber` | trunk/lttv/ltt/tracefile.c:363-470 | definition of `get_tracefile_name_number` on the whole name (result and name buffer); its properties: `TracefileName.GetTracefileNameNumber`, `TracefileName.NameNumberPerCpu`, `TracefileName.UserspaceComplete` |
| `TracefileName.DashGuardRejectsAsWritten` | trunk/lttv/ltt/tracefile.c:394-402 | definition of the userspace-name guard as written (reject only when the index equals the length); its properties: `TracefileName.DashGuardOvershoot`, `TracefileName.DashGuardMetadata` |
| `EventHeader.NextTsc` | trunk/lttv/ltt/tracefile.c:1318-1328 | definition of the TSC rebuilt from the previous TSC and a 27-bit timestamp; its properties: `EventHeader.NextTscLowBits`, `EventHeader.NextTscIsNearestAfter`, `EventHeader.NextTscWraps` |
| `EventHeader.BufferTsc` | trunk/lttv/ltt/tracefile.c:1286-1329 | definition of the buffer TSC after an event header as intended (full TSC for id 29, else `NextTsc`); its properties: `EventHeader.BufferTscCarriesTimestamp` |
| `EventHeader.BufferTscAsWritten` | trunk/lttv/ltt/tracefile.c:1286-1318 | definition of the buffer TSC as written, testing the id after the extended id replaced it; its properties: `EventHeader.ExtendedId29KeepsStaleTsc` |
| `TracefileName.ReadField` | trunk/lttv/ltt/tracefile.c:412-416 | definition of one numeric field read with `strtoul` and its two failure checks; its properties: `TracefileName.ReadFieldIsStrToUL`, `TracefileName.UserspaceBadTid` |
| `TracefileName.ReadCreation` | trunk/lttv/ltt/tracefile.c:439-445 | definition of the creation field read with `strtoull` from the twice-blanked name; its properties: `TracefileName.ReadPgidAndCreation`, `TracefileName.UserspaceComplete` |
| `TracefileSeek.Midpoint` | trunk/lttv/ltt/tracefile.c:1010 | definition of `block_num = (high - low) / 2 + low` in unsigned 32-bit arithmetic; its properties: `TracefileSeek.SearchAsWritten`, `TracefileSeek.GapAborts` |
| `StateStacks.PushState` | trunk/lttv/lttv/lttv/state.c:2138-2166 | `push_state` grows the execution stack by one and keeps the entries below; the new top has the requested mode and submode, entry = change = now, zero CPU time, and the status of the previous top |
| `StateStacks.PopState` | trunk/lttv/lttv/lttv/state.c:2188-2221 | `pop_state` leaves the stack as it is when the top mode differs or the depth is 1; otherwise it drops the top and sets `change` = now on the new top; the stack is never empty |
| `StateStacks.DropTop` | trunk/lttv/lttv/lttv/state.c:2217-2220 | one entry fewer, the entries below kept, the new top's change time set |
| `StateStacks.PopStateCleanup` | trunk/lttv/lttv/lttv/state.c:2170-2186 | `lttv_state_pop_state_cleanup` returns 1 exactly at depth 1 and then changes nothing, and otherwise returns 0 and drops the top |
| `StateStacks.PopAfterPush` | trunk/lttv/lttv/lttv/state.c:2138-2221 | popping the mode just pushed gives back the old stack with its top's change time updated |
| `StateStacks.PopOtherModeIgnored` | trunk/lttv/lttv/lttv/state.c:2196-2209 | popping a mode other than the one just pushed changes nothing |
| `StateStacks.SetBaseMode` | trunk/lttv/lttv/lttv/state.c:2077-2081 | `cpu/irq/bdev_set_base_mode` leaves exactly the one given mode |
| `StateStacks.PushMode` | trunk/lttv/lttv/lttv/state.c:2083-2087 | `cpu/irq/bdev_push_mode` puts the mode on top and keeps the rest |
| `StateStacks.PopMode` | trunk/lttv/lttv/lttv/state.c:2089-2136 | `cpu/irq/bdev_pop_mode` never leaves an empty stack: at length ≤ 1 it resets to the single UNKNOWN mode, otherwise it drops the top |
| `StateStacks.PopModeAfterPush` | trunk/lttv/lttv/lttv/state.c:2083-2095 | pop after push restores a non-empty stack, and gives [UNKNOWN] from an empty one |
| `StateStacks.PopModesBottomOut` | trunk/lttv/lttv/lttv/state.c:2089-2095 | popping at least as many times as there are modes leaves exactly [UNKNOWN] |
| `StateStacks.PushFunction` | trunk/lttv/lttv/lttv/state.c:2705-2721 | `push_function` appends the function and makes it current |
| `StateStacks.PopFunction` | trunk/lttv/lttv/lttv/state.c:2723-2755 | (corrected) a different function or an empty stack is ignored; otherwise the top goes and the current function is the new top, or 0 when none is left |
| `StateStacks.PushPopFunction` | trunk/lttv/lttv/lttv/state.c:2705-2755 | push keeps the current function on top of the stack, and pop undoes push |
| `StateStacks.PopFunctionKeepsCurrentOnTop` | trunk/lttv/lttv/lttv/state.c:2723-2755 | pop keeps the current function equal to the top of the stack |
| `StateStacks.PopLastFunctionOverreads` | trunk/lttv/lttv/lttv/state.c:2752-2754 | as written, popping the only function reads index `depth - 2` = −1, outside the array |
| `StateStacks.PopFunctionAgrees` | trunk/lttv/lttv/lttv/state.c:2723-2755 | away from that case the code as written and the corrected pop agree |
| `StateTables.CheckExpand` | trunk/lttv/lttv/lttv/state.c:289-295 | the new size is above the id and at least the old size |
| `StateTables.CheckExpandGrowth` | trunk/lttv/lttv/lttv/state.c:289-295 | the size is kept exactly when it is already above the id; otherwise it is `max(id + 1, 2·nb)` |
| `StateTables.CheckExpandIdempotent` | trunk/lttv/lttv/lttv/state.c:289-295 | expanding an expanded table for the same id changes nothing |
| `StateTables.DefaultName` | trunk/lttv/lttv/lttv/state.c:313 | "%s %d" starts with the default string and a blank |
| `StateTables.DefaultNamesDistinct` | trunk/lttv/lttv/lttv/state.c:306-316 | the default names of two different indices differ |
| `StateTables.ExpandedNames` | trunk/lttv/lttv/lttv/state.c:297-316 | the expanded table keeps the old names and names each new index i "def i" |
| `StateTables.FillNameTable` | trunk/lttv/lttv/lttv/state.c:306-316 | the `fill_name_table` loop produces `ExpandedNames` |
| `StateTables.Grown` | trunk/lttv/lttv/lttv/state.c:354-392 | `expand_irq_table`/`expand_soft_irq_table` (corrected): old entries kept, new ones initialised |
| `StateTables.GrowTable` | trunk/lttv/lttv/lttv/state.c:383-386 | the init loop over the new entries produces `Grown` |
| `StateTables.ExpansionLeavesGarbage` | trunk/lttv/lttv/lttv/state.c:335-392 | as written `expand_trap_table` copies past the old table and never runs its init loop, and `expand_soft_irq_table` never sets `pending`: a new entry can hold garbage |
| `StateTables.AsWrittenAgreesOnlyOnZeros` | trunk/lttv/lttv/lttv/state.c:335-351 | the trap expansion as written equals the intended one exactly when the memory read past the old table is zero |
| `StateTables.SoftIrqRaise` | trunk/lttv/lttv/lttv/state.c:2577-2604 | (corrected) the table grows by `check_expand` to hold the soft IRQ, which becomes pending; every other entry is kept or new and zero |
| `StateTables.RaiseBeyondTable` | trunk/lttv/lttv/lttv/state.c:2590-2601 | as written, raising soft IRQ 3 in a one-entry table writes outside it; the corrected raise grows the table |
| `StateTables.SoftIrqRaiseAgrees` | trunk/lttv/lttv/lttv/state.c:2577-2604 | inside the table both versions agree |
| `StateStacks.PopFunctionAsWritten` | trunk/lttv/lttv/lttv/state.c:2723-2755 | definition of `pop_function` as written, None for the read past the emptied stack; its properties: `StateStacks.PopLastFunctionOverreads`, `StateStacks.PopFunctionAgrees` |
| `StateTables.TrapStatesAsWritten` | trunk/lttv/lttv/lttv/state.c:335-351 | definition of the trap table `expand_trap_table` leaves, copying past the old table and initialising nothing; its properties: `StateTables.ExpansionLeavesGarbage`, `StateTables.AsWrittenAgreesOnlyOnZeros` |
| `StateTables.SoftIrqStatesAsWritten` | trunk/lttv/lttv/lttv/state.c:374-392 | definition of the soft IRQ table `expand_soft_irq_table` leaves, with `pending` uninitialised; its properties: `StateTables.ExpansionLeavesGarbage`, `StateTables.AsWrittenAgreesOnlyOnZeros` |
| `StateTables.SoftIrqRaiseAsWritten` | trunk/lttv/lttv/lttv/state.c:2590-2601 | definition of `soft_irq_raise` as written, None for the write past the table; its properties: `StateTables.RaiseBeyondTable`, `StateTables.SoftIrqRaiseAgrees` |
| `StateProcess.ProcessEqualIsKeyEquality` | trunk/lttv/lttv/lttv/state.c:258-271 | `process_equal` holds exactly when the (pid, CPU-if-pid-is-0) keys are equal |
| `StateProcess.ProcessEqualIsEquivalence` | trunk/lttv/lttv/lttv/state.c:258-271 | `process_equal` is reflexive, symmetric and transitive |
| `StateProcess.HashRespectsEqual` | trunk/lttv/lttv/lttv/state.c:249-271 | equal processes hash alike: `process_hash` reads only the pid |
| `StateProcess.SwappersShareBucket` | trunk/lttv/lttv/lttv/state.c:249-253 | the per-CPU swappers (pid 0) all hash to 0; sample values of `pid>>8 ^ pid>>4 ^ pid>>2 ^ pid` |
| `StateProcess.IntDecimal` | trunk/lttv/lttv/lttv/state.c:2317 | the "%d" spelling of the pid is non-empty |
| `StateProcess.NewProcess` | trunk/lttv/lttv/lttv/state.c:2278-2351 | a created process has the given pid, tgid, CPU and name; `ppid` and `creation_time` come from the parent, or are 0 without one; `free_events` is 0; the stack is USER_MODE/RUN under SYSCALL/WAIT_FORK; the function stack is empty with current function 0 |
| `StateProcess.UnknownProcess` | trunk/lttv/lttv/lttv/state.c:2366-2393 | a process created by `lttv_state_find_process_or_create` has no parent and a one-entry MODE_UNKNOWN/UNNAMED stack |
| `StateProcess.NewProcessesWellFormed` | trunk/lttv/lttv/lttv/state.c:2278-2393 | both kinds of new process start with a well-formed stack (never empty, MODE_UNKNOWN only alone) |
| `StateProcess.PushPopKeepWellFormed` | trunk/lttv/lttv/lttv/state.c:2138-2221 | pushing or popping a known mode keeps the stack well formed |
| `StateProcess.UnknownTopIsAlone` | trunk/lttv/lttv/lttv/state.c:2871-2875 | a well-formed stack with MODE_UNKNOWN on top has length 1, the `g_assert` in `schedchange` |
| `StateProcess.OutgoingStatus` | trunk/lttv/lttv/lttv/state.c:2878-2885 | an outgoing EXIT process becomes ZOMBIE; otherwise `state_out` 0 gives WAIT_CPU and anything else WAIT |
| `StateProcess.ScheduledCpuModes` | trunk/lttv/lttv/lttv/state.c:2910-2926 | the CPU becomes IDLE for pid 0, otherwise BUSY, with TRAP on top when the incoming process is in a trap |
| `StateProcess.SetTop` | trunk/lttv/lttv/lttv/state.c:2871-2898 | only the top of the execution stack changes |
| `StateProcess.SetTopKeepsWellFormed` | trunk/lttv/lttv/lttv/state.c:2871-2898 | changing the top's status or times keeps the stack well formed |
| `StateProcess.ExitStep` | trunk/lttv/lttv/lttv/state.c:2395-2413 | `exit_process` removes the process exactly when its count was already 1, and otherwise only counts the call |
| `StateProcess.FreedOnSecondExit` | trunk/lttv/lttv/lttv/state.c:2402-2404 | a process is kept on the first call and removed on the second |
| `StateProcess.ScheduleOut` | trunk/lttv/lttv/lttv/state.c:2857-2898 | the outgoing half of `schedchange`: the pid-0 MODE_UNKNOWN case (changed only when `pid_out` is 0, to SYSCALL/WAIT), and otherwise the new status, `change` = now, DEAD when the exit is the first one, and removal on the second |
| `StateProcess.ScheduleIn` | trunk/lttv/lttv/lttv/state.c:2899-2908 | the incoming process runs on the CPU: status RUN, `change` = now, mode kept |
| `StateProcess.FindOrUnknown` | trunk/lttv/lttv/lttv/state.c:2353-2393 | the table's process for the key, or a newly made unknown one |
| `StateProcess.ClosestSavedState` | trunk/lttv/lttv/lttv/state.c:4036-4059 | the binary search returns −1 or a saved state before the time, and on sorted times the next saved state is not before it (−1: none is) |
| `StateProcess.SeekTimeClosest` | trunk/lttv/lttv/lttv/state.c:4008-4084 | a time at or after the recomputed maximum restores the initial state and seeks to the time; otherwise the closest earlier saved state is restored, or the initial state with a seek to 0 when there is none |
| `KernelState.SwapperTables` | trunk/lttv/lttv/lttv/state.c:395-470 | each CPU starts running its own unknown swapper, which is its only process; CPU states start empty with no last IRQ, soft IRQ or trap |
| `KernelState.TraceState.constructor` | trunk/lttv/lttv/lttv/state.c:619-652 | `init` followed by `restore_init_state`: the given name tables size the IRQ, soft IRQ and trap tables, whose entries start idle (empty IRQ stacks, soft IRQs neither pending nor running, traps running nothing); each CPU runs its own unknown swapper with an empty mode stack and no last ids; no block device; the state invariant holds |
| `KernelState.TraceState.RestoreInitState` | trunk/lttv/lttv/lttv/state.c:395-474 | `restore_init_state` on a running state: the table sizes and names are kept and every entry is reset in place; the process table holds only the new swappers, one running per CPU; the block devices are forgotten; the state invariant is kept |
| `KernelState.ResetTables` | trunk/lttv/lttv/lttv/state.c:426-468 | the reset loops: every CPU reset as `ResetCpu` says, every IRQ stack emptied, every soft IRQ neither pending nor running, every trap running nothing, with the table sizes kept |
| `KernelState.ResetCpu` | trunk/lttv/lttv/lttv/state.c:443-449 | a reset CPU has an empty mode stack; its last IRQ, soft IRQ and trap are cleared only when its stack was not empty, and a CPU with an empty stack is left as it was |
| `KernelState.TraceState.ExpandSyscallTable` | trunk/lttv/lttv/lttv/state.c:318-327 | the syscall names grow by `check_expand` with default names; nothing else changes |
| `KernelState.TraceState.ExpandTrapTable` | trunk/lttv/lttv/lttv/state.c:335-351 | (corrected) trap names and trap states grow together, new traps not running |
| `KernelState.TraceState.ExpandIrqTable` | trunk/lttv/lttv/lttv/state.c:354-371 | IRQ names grow and each new IRQ gets an empty mode stack |
| `KernelState.TraceState.ExpandSoftIrqTable` | trunk/lttv/lttv/lttv/state.c:374-392 | (corrected) soft IRQ names and states grow, new entries neither pending nor running |
| `KernelState.TraceState.SetRunning` | trunk/lttv/lttv/lttv/state.c:2143-2166 | the running process of a CPU is replaced; nothing else changes |
| `KernelState.TraceState.PushRunningState` | trunk/lttv/lttv/lttv/state.c:2138-2166 | `push_state` on the CPU's running process |
| `KernelState.TraceState.PopRunningState` | trunk/lttv/lttv/lttv/state.c:2188-2221 | `pop_state` on the CPU's running process |
| `KernelState.TraceState.CreateProcess` | trunk/lttv/lttv/lttv/state.c:2278-2351 | the table maps the new key to `NewProcess`; nothing else changes |
| `KernelState.TraceState.FindProcessOrCreate` | trunk/lttv/lttv/lttv/state.c:2353-2393 | the key is in the table afterwards, holding the old process or a new unknown one |
| `KernelState.TraceState.ExitProcess` | trunk/lttv/lttv/lttv/state.c:2395-2413 | the return value is 1 exactly when the process is removed from the table; otherwise its count goes up |
| `KernelState.TraceState.ScheduleOutRunning` | trunk/lttv/lttv/lttv/state.c:2857-2898 | the outgoing process is updated as `ScheduleOut` says, or removed |
| `KernelState.TraceState.Schedchange` | trunk/lttv/lttv/lttv/state.c:2840-2929 | `schedchange`: the outgoing update, then the CPU runs the found or created incoming process in RUN, and its mode stack is reset as `ScheduledCpuModes` says |
| `KernelState.TraceState.SetCpuModes` | trunk/lttv/lttv/lttv/state.c:2910-2926 | only the CPU's mode stack changes |
| `KernelState.TraceState.ScheduleInRunning` | trunk/lttv/lttv/lttv/state.c:2899-2908 | the CPU's running key becomes the incoming process, scheduled in |
| `KernelState.TraceState.SwitchRunning` | trunk/lttv/lttv/lttv/state.c:2899-2903 | only the CPU's running key changes |
| `KernelState.TraceState.SyscallEntry` | trunk/lttv/lttv/lttv/state.c:2430-2449 | the syscall table is expanded; a non-swapper running process pushes SYSCALL with the syscall's name |
| `KernelState.TraceState.SyscallExit` | trunk/lttv/lttv/lttv/state.c:2451-2463 | a non-swapper running process pops SYSCALL |
| `KernelState.TraceState.TrapEntry` | trunk/lttv/lttv/lttv/state.c:2465-2491 | the trap table is expanded; the process pushes TRAP, the CPU pushes TRAP and remembers the trap, whose running count goes up |
| `KernelState.TraceState.TrapExit` | trunk/lttv/lttv/lttv/state.c:2493-2510 | TRAP is popped from the process and the CPU; the last trap's running count goes down when positive |
| `KernelState.TraceState.IrqEntry` | trunk/lttv/lttv/lttv/state.c:2512-2539 | the IRQ table is expanded; the process pushes IRQ, the CPU pushes IRQ and remembers it, and the IRQ's stack pushes BUSY |
| `KernelState.TraceState.IrqExit` | trunk/lttv/lttv/lttv/state.c:2560-2575 | IRQ is popped from the process and the CPU, and the last IRQ's stack pops |
| `KernelState.TraceState.SoftIrqRaise` | trunk/lttv/lttv/lttv/state.c:2577-2605 | (corrected) the table is expanded before the soft IRQ is set pending |
| `KernelState.TraceState.SoftIrqEntry` | trunk/lttv/lttv/lttv/state.c:2607-2633 | the soft IRQ table is expanded; the pending count drops, the running count rises; process and CPU push SOFT_IRQ |
| `KernelState.TraceState.SoftIrqExit` | trunk/lttv/lttv/lttv/state.c:2541-2558 | SOFT_IRQ is popped; the last soft IRQ's running count goes down when positive |
| `KernelState.TraceState.BdevRequestIssue` | trunk/lttv/lttv/lttv/state.c:2654-2679 | the device's stack (created on first use) pushes BUSY_READING for operation 0, BUSY_WRITING otherwise |
| `KernelState.TraceState.BdevRequestComplete` | trunk/lttv/lttv/lttv/state.c:2681-2703 | the device's stack pops and stays non-empty |
| `KernelState.TraceState.FunctionEntry` | trunk/lttv/lttv/lttv/state.c:2757-2768 | the running process pushes the function |
| `KernelState.TraceState.FunctionExit` | trunk/lttv/lttv/lttv/state.c:2770-2781 | the running process pops the function (corrected `pop_function`) |
| `StateProcess.ProcessHash` | trunk/lttv/lttv/lttv/state.c:249-253 | definition of `process_hash` on the 32-bit pid; its properties: `StateProcess.HashRespectsEqual`, `StateProcess.SwappersShareBucket` |
| `StateProcess.ProcessEqual` | trunk/lttv/lttv/lttv/state.c:258-271 | definition of `process_equal`; its properties: `StateProcess.ProcessEqualIsKeyEquality`, `StateProcess.ProcessEqualIsEquivalence` |
| `StateProcess.PidTime` | trunk/lttv/lttv/lttv/state.c:2316-2318 | definition of the `pid_time` text "%d-%lu.%lu" of `lttv_state_create_process`; its properties: `StateProcess.IntDecimal`, `StateProcess.NewProcess` |
| `KernelState.TraceState.BdevStack` | trunk/lttv/lttv/lttv/state.c:1402-1417 | definition of `get_hashed_bdevstate`: the device's mode stack, empty for a device not seen before; its properties: `KernelState.TraceState.BdevRequestIssue`, `KernelState.TraceState.BdevRequestComplete` |
| `KernelState.ResetKeepsLastIds` | trunk/lttv/lttv/lttv/state.c:443-449 | resetting the CPUs keeps every last IRQ, soft IRQ and trap id within its table |
| `FilterField.RemovedAt` | trunk/lttv/lttv/lttv/filter.c:107-122 | removing index `i` keeps the order: the elements before `i` stay, the ones after shift down by one, and the length drops by one |
| `FilterField.RemovedAtReinsert` | trunk/lttv/lttv/lttv/filter.c:107-122 | putting the removed element back at `i` gives the original array |
| `FilterField.RemoveIndexSlow` | trunk/lttv/lttv/lttv/filter.c:107-122 | the in-place shifting loop: an empty array yields NULL and nothing changes; otherwise the element at `i` is returned, the live prefix becomes `RemovedAt` of the old one and the cells past it are untouched |
| `FilterField.StructTypeOf` | trunk/lttv/lttv/lttv/filter.c:612-650 | every defined field belongs to one structure (trace, tracefile, state or event); only the undefined field has none (-1) |
| `FilterField.ToLowerAscii` | trunk/lttv/lttv/lttv/filter.c:156-276 | the case folding `g_strcasecmp` applies: capitals move up by 32, every other character is kept |
| `FilterField.Lowered` | trunk/lttv/lttv/lttv/filter.c:156-276 | folding a string folds each character and keeps the length |
| `FilterField.LoweredNoCapitals` | trunk/lttv/lttv/lttv/filter.c:156-276 | the field names compared against contain no capitals and fold to themselves |
| `FilterField.SameIgnoringCaseAsLowered` | trunk/lttv/lttv/lttv/filter.c:156-276 | a case-insensitive match against a lower-case keyword is the same as folding the input and comparing |
| `FilterField.RemovedAsWritten` | trunk/lttv/lttv/lttv/filter.c:139-276 | components consumed as written: one for "traceset", three for "event.field" with a third component, two otherwise |
| `FilterField.Removed` | trunk/lttv/lttv/lttv/filter.c:139-276 | the same count with "traceset" consuming its second component: always at least two |
| `FilterField.AssignField` | trunk/lttv/lttv/lttv/filter.c:135-292 | a path of fewer than two components is refused and left alone; a path with components left over after the field aborts (the `fp->len == 0` assertion); otherwise the path is emptied, the field is the one named, and the result is TRUE exactly when that field is defined |
| `FilterField.TracesetPathAborts` | trunk/lttv/lttv/lttv/filter.c:163-166 | "traceset.name" leaves "name" in the array, so the emptiness assertion fails; with the component consumed the path is refused |
| `FilterField.AssignFieldAgrees` | trunk/lttv/lttv/lttv/filter.c:135-292 | away from "traceset" the corrected and as-written assignment coincide |
| `FilterField.PathOf` | trunk/lttv/lttv/lttv/filter.c:156-276 | every field has a two-component canonical path |
| `FilterField.PathOfRoundTrip` | trunk/lttv/lttv/lttv/filter.c:135-292 | assigning the canonical path of a defined field succeeds with that field, and its first component names the field's structure |
| `FilterField.PathLowered` | trunk/lttv/lttv/lttv/filter.c:156-276 | canonical path components are lower case |
| `FilterField.PathLoweredTraces` | trunk/lttv/lttv/lttv/filter.c:156-180 | the same for the trace and tracefile names |
| `FilterField.PathLoweredProcess` | trunk/lttv/lttv/lttv/filter.c:181-230 | the same for the process fields of "state" |
| `FilterField.PathLoweredModes` | trunk/lttv/lttv/lttv/filter.c:181-230 | the same for the mode, status and cpu fields of "state" |
| `FilterField.PathLoweredEvents` | trunk/lttv/lttv/lttv/filter.c:231-276 | the same for the name, subname, category and time of "event" |
| `FilterField.PathLoweredEventData` | trunk/lttv/lttv/lttv/filter.c:231-276 | the same for tsc, target_pid and field of "event" |
| `FilterField.NamedFieldOfPath` | trunk/lttv/lttv/lttv/filter.c:156-276 | the dispatch on the folded canonical path gives back the field |
| `FilterField.StateFieldOfPath` | trunk/lttv/lttv/lttv/filter.c:181-230 | the "state" dispatch recognises every state field's second component |
| `FilterField.EventFieldOfPath` | trunk/lttv/lttv/lttv/filter.c:231-276 | the "event" dispatch recognises every event field's second component |
| `FilterOps.Negated` | trunk/lttv/lttv/lttv/filter.c:656-1260 | each comparison operator has a distinct opposite (=/!=, </>=, <=/>) |
| `FilterOps.Packed` | trunk/lttv/lttv/lttv/filter.c:2126-2133 | the `GQuark qtuple[2]` read as one 64-bit value: the low 32 bits are the channel quark and the high 32 bits the event name quark |
| `FilterOps.PackedInjective` | trunk/lttv/lttv/lttv/filter.c:2126-2133 | two quark pairs pack to the same 64-bit value exactly when they are equal |
| `FilterOps.OperandAsUInt64` | trunk/lttv/lttv/lttv/filter.c:672-686 | the 64-bit operand a `uint64` comparison reads: the value itself, or the packed quark pair |
| `FilterOps.ValueAsUInt64` | trunk/lttv/lttv/lttv/filter.c:672-686 | the same for the field value side of the comparison |
| `FilterOps.NegatedComparison` | trunk/lttv/lttv/lttv/filter.c:656-1260 | every comparison function has a distinct negated counterpart of the same type |
| `FilterOps.NegationInvolutive` | trunk/lttv/lttv/lttv/filter.c:656-1260 | negating an operator or a comparison twice gives it back |
| `FilterOps.NegationComplements` | trunk/lttv/lttv/lttv/filter.c:656-1260 | a comparison and its negation are defined on the same operands and always give opposite answers, including the two-quark `eq_quarks`/`ne_quarks` pair |
| `FilterOps.TimeComparisonsAreOrder` | trunk/lttv/lttv/lttv/filter.c:777-1260 | the `ltttime` comparisons are equality and the lexicographic (seconds, nanoseconds) order of `ltt_time_compare` |
| `FilterOps.QuarksMatching` | trunk/lttv/lttv/lttv/filter.c:758-766 | `eq_quarks` with a zero channel matches on the event name alone, otherwise on both channel and name |
| `FilterOps.KindOf` | trunk/lttv/lttv/lttv/filter.c:304-466 | the value kind of a field; exactly the undefined, category and event-field fields have no operator table |
| `FilterOps.AssignOperator` | trunk/lttv/lttv/lttv/filter.c:304-466 | string-like fields (one or two quarks) accept only = and !=; integer, 64-bit and time fields accept all six; fields without a kind are refused |
| `FilterOps.AssignedOperatorIsDefined` | trunk/lttv/lttv/lttv/filter.c:304-466 | an assigned operator applied to an operand and value of the field's kind always yields an answer |
| `FilterOps.EventNameFallThrough` | trunk/lttv/lttv/lttv/filter.c:333-372 | the missing `break` after the EVENT_NAME case replaces the two-quark comparison with the 64-bit one, so "event.name=x" with no channel never matches; the corrected assignment keeps `eq_quarks` |
| `FilterOps.AssignOperatorAgrees` | trunk/lttv/lttv/lttv/filter.c:304-466 | apart from = and != on the event name, the as-written and corrected assignment agree |
| `FilterValue.AsGuint` | trunk/lttv/lttv/lttv/filter.c:530-536 | the conversion of the `atoi` result to `guint` keeps every value already in range |
| `FilterValue.AsGuint64` | trunk/lttv/lttv/lttv/filter.c:522-525 | the same for the 64-bit value |
| `FilterValue.ParseTimeValue` | trunk/lttv/lttv/lttv/filter.c:541-567 | the character loop of the time case computes `TimeValue`: refused at a second dot, seconds from the text before the dot and nanoseconds from the text after it |
| `FilterValue.TimeValueNoDot` | trunk/lttv/lttv/lttv/filter.c:556-561 | without a dot the whole text is the seconds and the nanoseconds are 0 |
| `FilterValue.TimeValueOneDot` | trunk/lttv/lttv/lttv/filter.c:546-561 | with one dot the seconds are `atoi` of the text before it and the nanoseconds `atoi` of the text after it |
| `FilterValue.TimeValueSecondDot` | trunk/lttv/lttv/lttv/filter.c:548-550 | any second dot makes the value refused |
| `FilterValue.EventNameValue` | trunk/lttv/lttv/lttv/filter.c:502-517 | the event name value is always a quark pair |
| `FilterValue.AssignValue` | trunk/lttv/lttv/lttv/filter.c:474-580 | on refusal the old value is kept; on success the value has the kind of its field; fields without a kind are refused |
| `FilterValue.UIntValue` | trunk/lttv/lttv/lttv/filter.c:530-536 | for the pid, ppid, cpu and target pid fields the value is `atoi` of the text as a `guint` |
| `FilterValue.TscValues` | trunk/lttv/lttv/lttv/filter.c:522-525 | the tsc value is `atoi` of the text widened to 64 bits as written, and read with `strtoul` in the corrected model |
| `FilterValue.AtoiOfDecimal` | trunk/lttv/lttv/lttv/filter.c:522-536 | `atoi` of a 32-bit decimal is the number itself up to INT_MAX and wraps negative above it |
| `FilterValue.UIntValueRoundTrip` | trunk/lttv/lttv/lttv/filter.c:530-536 | the decimal text of any 32-bit number assigns that number |
| `FilterValue.GuintOfAtoi` | trunk/lttv/lttv/lttv/filter.c:530-536 | converting `atoi` of a 32-bit decimal back to `guint` gives the number |
| `FilterValue.TscValueRoundTrip` | trunk/lttv/lttv/lttv/filter.c:522-525 | with `strtoul` the decimal text of any 64-bit count assigns that count |
| `FilterValue.TscValueWrapsAsWritten` | trunk/lttv/lttv/lttv/filter.c:522-525 | as written, a count from 2^31 to 2^32-1 is sign-extended to a different 64-bit value |
| `FilterValue.EventNameValueSplit` | trunk/lttv/lttv/lttv/filter.c:502-517 | "channel.name" splits at the first dot into two quarks; a name with no dot gets the zero channel |
| `FilterValue.TimeValueRoundTrip` | trunk/lttv/lttv/lttv/filter.c:541-567 | printing seconds, or seconds "." nanoseconds, in decimal reads back as that time |
| `FilterValue.TimeValueTwoDots` | trunk/lttv/lttv/lttv/filter.c:548-550 | a time text with two dots is refused and leaves the value unchanged |
| `FilterTree.ResolveState` | trunk/lttv/lttv/lttv/filter.c:1969-1982 | without a tracefile context the process state passed in is used |
| `FilterTree.Apply` | trunk/lttv/lttv/lttv/filter.c:2057-2172 | an expression with no operator gives no answer |
| `FilterTree.ParseBranch` | trunk/lttv/lttv/lttv/filter.c:2046-2195 | a state field with no process state passes (TRUE), and so do the undefined, category and event-field fields |
| `FilterTree.Combine` | trunk/lttv/lttv/lttv/filter.c:2017-2031 | NOT negates the child that is present, left before right; the other operators combine as written (OR, AND, XOR, the lone right result, TRUE otherwise) |
| `FilterTree.CutoffsAgree` | trunk/lttv/lttv/lttv/filter.c:1923-2033 | where a strict evaluation of both branches gives an answer, the short-circuit evaluation gives the same one |
| `FilterTree.ChildCutoffsAgree` | trunk/lttv/lttv/lttv/filter.c:1987-2009 | the same for a single child, node or leaf |
| `FilterTree.ShortCircuits` | trunk/lttv/lttv/lttv/filter.c:1998-1999 | OR with a true left branch is true and AND with a false left branch is false whatever the right branch is |
| `FilterTree.NotOverSubtree` | trunk/lttv/lttv/lttv/filter.c:2020-2021 | as written, NOT over a subtree (not a leaf) always yields TRUE; the corrected combination negates the subtree |
| `FilterTree.NotNegatesLeaf` | trunk/lttv/lttv/lttv/filter.c:2020-2021 | NOT over a leaf on either side negates the leaf's answer |
| `FilterTree.NestedStateIsNull` | trunk/lttv/lttv/lttv/filter.c:1987-2008 | subtrees are evaluated with a NULL state, so a state field one level down always passes even where it fails at the root |
| `FilterTree.AttachRight` | trunk/lttv/lttv/lttv/filter.c:1736-1760 | hanging a child at the end of the right spine keeps the root operator and left child; a subtree keeps the spine open, a leaf closes it |
| `FilterTree.AttachTwice` | trunk/lttv/lttv/lttv/filter.c:1736-1760 | attaching a subtree and then a child is the same as attaching the subtree already extended by that child |
| `FilterParse.CharAt` | trunk/lttv/lttv/lttv/filter.c:1432-1436 | the look-ahead `expression[i+1]` reads the character when it exists (the terminating NUL otherwise) |
| `FilterParse.StartValid` | trunk/lttv/lttv/lttv/filter.c:1341-1392 | the initial parser state (one root tree, nesting 0, no pending subtree) satisfies the parser invariant |
| `FilterParse.ReplaceTop` | trunk/lttv/lttv/lttv/filter.c:1461-1491 | replacing the top of the tree stack keeps its depth and everything below |
| `FilterParse.AssignersOf` | trunk/lttv/lttv/lttv/filter.c:135-580 | the parser calls the field, operator and value assignments modelled above |
| `FilterParse.ClosedExpression` | trunk/lttv/lttv/lttv/filter.c:1485-1487 | closing a simple expression assigns its value and keeps its field and operator |
| `FilterParse.Operand` | trunk/lttv/lttv/lttv/filter.c:1480-1491 | a pending subtree is used and cleared, otherwise the simple expression becomes a leaf and the buffers are reset |
| `FilterParse.LogicalStep` | trunk/lttv/lttv/lttv/filter.c:1458-1562 | the and (`&`), or (pipe) and xor (`^`) characters keep the invariant and the nesting, clear the NOT flag and advance one character |
| `FilterParse.OpenStep` | trunk/lttv/lttv/lttv/filter.c:1578-1592 | an opening bracket pushes a tree, increments the nesting and clears the NOT flag |
| `FilterParse.CloseStep` | trunk/lttv/lttv/lttv/filter.c:1594-1639 | a closing bracket is refused exactly at nesting 0; otherwise it pops one level and keeps the invariant |
| `FilterParse.FieldStep` | trunk/lttv/lttv/lttv/filter.c:1641-1675 | assigning the field path before an operator keeps the stack and nesting, or aborts on the emptiness assertion |
| `FilterParse.WithOperator` | trunk/lttv/lttv/lttv/filter.c:1641-1675 | assigning the operator keeps the field, the value, the stack and the nesting |
| `FilterParse.ComparisonStep` | trunk/lttv/lttv/lttv/filter.c:1563-1675 | a comparison operator (one or two characters) keeps the invariant and moves past the operator |
| `FilterParse.Append` | trunk/lttv/lttv/lttv/filter.c:1708-1716 | an ordinary character is appended after any buffered inner spaces |
| `FilterParse.QuoteStep` | trunk/lttv/lttv/lttv/filter.c:1432-1452 | inside quotes every character is kept (a backslash before a quote keeps the quote); a closing quote ends the quoted run and is consumed alone |
| `FilterParse.ConnectiveOf` | trunk/lttv/lttv/lttv/filter.c:1458-1562 | the and (`&`), or (pipe) and xor (`^`) characters map to AND, OR and XOR |
| `FilterParse.ComparisonAt` | trunk/lttv/lttv/lttv/filter.c:1563-1675 | comparison operators are one or two characters long |
| `FilterParse.Step` | trunk/lttv/lttv/lttv/filter.c:1429-1718 | one iteration of the parsing loop keeps the parser invariant and advances |
| `FilterParse.Finish` | trunk/lttv/lttv/lttv/filter.c:1724-1783 | after the loop, open brackets are refused, a half-assigned path aborts and otherwise a tree is built |
| `FilterParse.Run` | trunk/lttv/lttv/lttv/filter.c:1429-1783 | the loop always ends in a verdict |
| `FilterParse.Continue` | trunk/lttv/lttv/lttv/filter.c:1429-1718 | the loop continues from a state it has moved past |
| `FilterParse.Parse` | trunk/lttv/lttv/lttv/filter.c:1341-1783 | parsing any expression ends in a built tree, a refusal or an abort |
| `FilterParse.StackFollowsNesting` | trunk/lttv/lttv/lttv/filter.c:1578-1639 | the tree stack holds one tree per open bracket plus the root |
| `FilterParse.UnbalancedCloseRejected` | trunk/lttv/lttv/lttv/filter.c:1599-1603 | a closing bracket with nothing open makes the whole update fail |
| `FilterParse.OpenAtEndRejected` | trunk/lttv/lttv/lttv/filter.c:1724-1728 | a bracket still open at the end makes the update fail |
| `FilterParse.OpenParenRejected` | trunk/lttv/lttv/lttv/filter.c:1594-1728 | "(" and ")" are both refused |
| `FilterParse.PlainStep` | trunk/lttv/lttv/lttv/filter.c:1708-1716 | an ordinary character outside quotes only extends the current component |
| `FilterParse.PlainRun` | trunk/lttv/lttv/lttv/filter.c:1708-1716 | a run of ordinary characters is appended to the component |
| `FilterParse.OperatorText` | trunk/lttv/lttv/lttv/filter.c:1563-1675 | the text of each comparison operator is one or two characters and starts with a special one |
| `FilterParse.OperatorStep` | trunk/lttv/lttv/lttv/filter.c:1563-1675 | the loop reads an operator's text as that operator |
| `FilterParse.RunStep` | trunk/lttv/lttv/lttv/filter.c:1429-1718 | running from a state is running from its successor |
| `FilterParse.DotStep` | trunk/lttv/lttv/lttv/filter.c:1680-1696 | a dot before any field is assigned ends a path component |
| `FilterParse.DigitsArePlain` | trunk/lttv/lttv/lttv/filter.c:1708-1716 | digits are ordinary characters for the parser |
| `FilterParse.PlainTail` | trunk/lttv/lttv/lttv/filter.c:1708-1783 | ordinary characters up to the end are appended and then the loop finishes |
| `FilterParse.ComparisonPrefix` | trunk/lttv/lttv/lttv/filter.c:1641-1675 | reading one component and an operator reaches the corresponding parser state |
| `FilterParse.SingleComponentRun` | trunk/lttv/lttv/lttv/filter.c:139-292 | a one-component path is refused by `assign_field` and left in the array, so the final emptiness assertion fails |
| `FilterParse.SingleComponentAborts` | trunk/lttv/lttv/lttv/filter.c:1765-1766 | every expression "a op v" with a one-component field aborts |
| `FilterParse.PathPrefix` | trunk/lttv/lttv/lttv/filter.c:1680-1716 | reading "a.b" leaves [a] in the path and b as the component |
| `FilterParse.OperatorAfterPath` | trunk/lttv/lttv/lttv/filter.c:1641-1675 | an operator after "a.b" assigns the field and the operator and empties the path |
| `FilterParse.ValueTail` | trunk/lttv/lttv/lttv/filter.c:1736-1760 | the value text up to the end becomes the single leaf of the root tree |
| `FilterParse.OperatorAndValue` | trunk/lttv/lttv/lttv/filter.c:1641-1760 | an operator and a value after "a.b" build the one-leaf tree |
| `FilterParse.SimpleExpressionParse` | trunk/lttv/lttv/lttv/filter.c:1341-1783 | "a.b op v" builds a root with one leaf holding the field, the operator and the value |
| `FilterParse.SimpleExpressionText` | trunk/lttv/lttv/lttv/filter.c:1429-1716 | the pieces of "a.b op v" are where the parser reads them |
| `FilterParse.UIntComparisonRoundTrip` | trunk/lttv/lttv/lttv/filter.c:1341-1783 | for an unsigned integer field, "a.b op n" in decimal parses to a leaf comparing that field with n by that operator |
| `FilterParse.PidComparisonRoundTrip` | trunk/lttv/lttv/lttv/filter.c:1341-1783 | "state.pid op n" parses to a leaf comparing the pid with n |
| `FilterParse.PidPath` | trunk/lttv/lttv/lttv/filter.c:191-193 | "state.pid" names the pid field, an unsigned integer |
| `FilterParse.PidText` | trunk/lttv/lttv/lttv/filter.c:1680-1696 | the text "state.pid" is the two components joined by a dot |
| `FilterParse.ClosingQuoteSwallows` | trunk/lttv/lttv/lttv/filter.c:1439-1450 | as written the closing quote's `i++` appends the character after it, so in `"k"&x` the `&` joins the component; the corrected step consumes only the quote |
| `FilterParse.QuoteStepAgrees` | trunk/lttv/lttv/lttv/filter.c:1432-1452 | away from a closing quote the as-written and corrected quote steps agree |
| `FilterParse.Joined` | trunk/lttv/lttv/lttv/filter.c:1858-1863 | a new expression is joined to the existing one with `&`, or stands alone when there is none |
| `FilterParse.Filter.constructor` | trunk/lttv/lttv/lttv/filter.c:1322-1330 | a new filter has no expression and no tree |
| `FilterParse.Filter.Update` | trunk/lttv/lttv/lttv/filter.c:1341-1783 | with no expression the update fails and the tree is kept; otherwise the verdict is that of parsing the expression, and the tree is the one built or none |
| `FilterParse.Filter.AppendExpression` | trunk/lttv/lttv/lttv/filter.c:1852-1869 | an absent or empty expression is refused and nothing changes; otherwise the expression becomes the `&`-joined text and the verdict and the new tree are those of parsing it, with no tree when the parse fails |
| `FilterParse.Filter.ClearExpression` | trunk/lttv/lttv/lttv/filter.c:1881-1888 | the expression is dropped and the tree kept |
| `FilterField.AssignFieldAsWritten` | trunk/lttv/lttv/lttv/filter.c:135-292 | definition of `lttv_simple_expression_assign_field` as written, aborting on the traceset branch; its properties: `FilterField.TracesetPathAborts`, `FilterField.AssignFieldAgrees` |
| `FilterOps.ApplyOp` | trunk/lttv/lttv/lttv/filter.c:656-1260 | definition of one `lttv_apply_op_*` call, None for a read of the wrong union member; its properties: `FilterOps.NegatedComparison`, `FilterOps.NegationComplements`, `FilterOps.TimeComparisonsAreOrder`, `FilterOps.QuarksMatching` |
| `FilterOps.AssignOperatorAsWritten` | trunk/lttv/lttv/lttv/filter.c:304-466 | definition of `lttv_simple_expression_assign_operator` as written, with the EVENT_NAME fall-through; its properties: `FilterOps.EventNameFallThrough`, `FilterOps.AssignOperatorAgrees` |
| `FilterValue.AssignValueAsWritten` | trunk/lttv/lttv/lttv/filter.c:474-580 | definition of `assign_value` as written, with the TSC read through `atoi`; its properties: `FilterValue.TscValueWrapsAsWritten`, `FilterValue.TscValues` |
| `FilterTree.CombineAsWritten` | trunk/lttv/lttv/lttv/filter.c:2017-2031 | definition of the combining switch of `lttv_filter_tree_parse` as written, TRUE for NOT over a subtree; its properties: `FilterTree.NotOverSubtree`, `FilterTree.NotNegatesLeaf` |
| `FilterTree.EvalTree` | trunk/lttv/lttv/lttv/filter.c:1923-2033 | definition of `lttv_filter_tree_parse`, None for a crash or undefined read; its properties: `FilterTree.CutoffsAgree`, `FilterTree.ShortCircuits`, `FilterTree.NestedStateIsNull` |
| `FilterParse.QuoteStepAsWritten` | trunk/lttv/lttv/lttv/filter.c:1432-1452 | definition of the quoted-text step of `lttv_filter_update` as written, the closing quote taking the next character; its properties: `FilterParse.ClosingQuoteSwallows`, `FilterParse.QuoteStepAgrees` |
| `FilterOps.CompareUnsigned` | trunk/lttv/lttv/lttv/filter.c:656-776 | definition of the unsigned `lttv_apply_op_*` comparisons; its properties: `FilterOps.NegatedComparison`, `FilterOps.NegationComplements` |
| `FilterOps.CompareTimes` | trunk/lttv/lttv/lttv/filter.c:777-1260 | definition of the time comparisons on the result of `ltt_time_compare`; its properties: `FilterOps.TimeComparisonsAreOrder` |
| `TraceContext.CompareTracefile` | trunk/lttv/lttv/lttv/tracecontext.c:31-50 | the queue order returns -1, 0 or 1; 0 exactly for the same context (same trace and tracefile index); an earlier time stamp sorts first and a -1 never puts a later time stamp first |
| `TraceContext.CompareTracefileAntisymmetric` | trunk/lttv/lttv/lttv/tracecontext.c:31-50 | swapping the arguments negates the comparison |
| `TraceContext.CompareTracefileTransitive` | trunk/lttv/lttv/lttv/tracecontext.c:31-50 | the order is transitive, so the GTree holds a strict total order |
| `TraceContext.ReadNextOk` | trunk/lttv/lttv/lttv/tracecontext.c:783-800 | reading on keeps a tracefile well formed, moves it one event on and never moves its time stamp back |
| `TraceContext.Remove` | trunk/lttv/lttv/lttv/tracecontext.c:751-751 | `g_tree_remove` leaves every other queued context and keeps the queue free of duplicates |
| `TraceContext.SumsUpdate` | trunk/lttv/lttv/lttv/tracecontext.c:766-783 | reading one event in one tracefile moves the total read count by exactly that tracefile's move |
| `TraceContext.SumCurBounded` | trunk/lttv/lttv/lttv/tracecontext.c:715-808 | no more events can be read than the tracefiles hold, which bounds the merge loop |
| `TraceContext.EntriesCompareZero` | trunk/lttv/lttv/lttv/tracecontext.c:1190-1208 | the entry loop finds no difference exactly when every saved entry matches its context |
| `TraceContext.CtxPosCompareZero` | trunk/lttv/lttv/lttv/tracecontext.c:1176-1211 | a saved position equals the live context exactly when it is empty for an empty traceset (and only then) and every entry matches: unused for a finished tracefile, the current event otherwise |
| `TraceContext.SnapshotCompares` | trunk/lttv/lttv/lttv/tracecontext.c:1094-1211 | a position saved from the context compares equal to it |
| `TraceContext.PosPosCompare` | trunk/lttv/lttv/lttv/tracecontext.c:1214-1261 | two infinite positions compare 0, infinite against finite gives 1 and finite against infinite -1; otherwise the nested loop computes the first difference of the entries |
| `TraceContext.InnerUsedZero` | trunk/lttv/lttv/lttv/tracecontext.c:1233-1257 | the inner loop for a used entry finds no difference when every entry on the same context holds the same event |
| `TraceContext.InnerUnusedZero` | trunk/lttv/lttv/lttv/tracecontext.c:1233-1257 | the inner loop for an unused entry finds no difference when every entry on that context is unused |
| `TraceContext.OuterZero` | trunk/lttv/lttv/lttv/tracecontext.c:1230-1258 | the outer loop finds no difference between positions that agree entry by entry |
| `TraceContext.AgreeingComparesEqual` | trunk/lttv/lttv/lttv/tracecontext.c:1214-1261 | positions with the same contexts, flags and used events compare 0 |
| `TraceContext.CopyGuardAdmitsShortDestination` | trunk/lttv/lttv/lttv/tracecontext.c:1156-1156 | the copy's assertion compares the source length with itself, so it admits a destination shorter than the source |
| `TraceContext.CopyPosition` | trunk/lttv/lttv/lttv/tracecontext.c:1150-1174 | the copy takes each entry's context and flag, the event only where it is used, and the time stamp |
| `TraceContext.CopyComparesEqual` | trunk/lttv/lttv/lttv/tracecontext.c:1150-1261 | a copy compares equal to its source |
| `TraceContext.FirstAtOrAfter` | trunk/lttv/lttv/lttv/tracecontext.c:835-869 | the index a time seek lands on is the first event at or after the time |
| `TraceContext.ComputeTimeSpan` | trunk/lttv/lttv/lttv/tracecontext.c:112-150 | the traceset span is the minimum start and maximum end over the traces, both attained by some trace, and (0,0)-(0,0) with no trace |
| `TraceContext.TracesetContext.constructor` | trunk/lttv/lttv/lttv/tracecontext.c:174-246 | the context starts with its tracefiles and their finite time stamps queued |
| `TraceContext.TracesetContext.First` | trunk/lttv/lttv/lttv/tracecontext.c:632-636 | `get_first` returns a queued context that is least in the queue order, hence with the smallest time stamp |
| `TraceContext.TracesetContext.CtxPosCompare` | trunk/lttv/lttv/lttv/tracecontext.c:1176-1211 | the comparison loop computes the position comparison specified above |
| `TraceContext.TracesetContext.SavePosition` | trunk/lttv/lttv/lttv/tracecontext.c:1094-1133 | each entry records its context, `used` exactly for a finite time stamp and then the current event; the time stamp is the minimum finite time stamp, infinite exactly when there is none |
| `TraceContext.TracesetContext.Advance` | trunk/lttv/lttv/lttv/tracecontext.c:751-807 | the context is read one event on and requeued with its new time stamp, or left out of the queue when it reached the end |
| `TraceContext.TracesetContext.Deliver` | trunk/lttv/lttv/lttv/tracecontext.c:751-807 | delivering the least event reads exactly that event: its time joins both the ordered record of delivered times and the times the contexts have read, and the read count grows by one |
| `TraceContext.TracesetContext.Middle` | trunk/lttv/lttv/lttv/tracecontext.c:691-809 | the merge loop returns the number of hook calls; the delivered times are, as a multiset, exactly the times of the events the tracefiles read, and they come in time order, before `end` and not after any event left in the queue; never more than `nb_events` unless `G_MAXULONG`; it stops only on an empty queue, a hook asking to stop, the event budget, the end position or the end time |
| `TraceContext.TracesetContext.Step` | trunk/lttv/lttv/lttv/tracecontext.c:715-808 | one iteration either stops with nothing changed for one of the four reasons, or delivers one event and keeps the loop invariant |
| `TraceContext.TracesetContext.StopBefore` | trunk/lttv/lttv/lttv/tracecontext.c:732-739 | the loop stops before reading exactly on the last hook's TRUE, the event budget, the end position or `end` at or before the least time stamp |
| `TraceContext.TracesetContext.SeekTraceTime` | trunk/lttv/lttv/lttv/tracecontext.c:835-869 | every tracefile of the trace moves to its first event at or after the time, the others are untouched, and the queue holds exactly the finite ones |
| `TraceContext.TracesetContext.SeekNForward` | trunk/lttv/lttv/lttv/tracecontext.c:1593-1637 | 0 events asked does nothing; otherwise the result counts the accepted events read, is at most n, and falls short only at the end of the traceset, on a stop request, or at the `G_MAXUINT` budget |
| `TraceContext.RequeueOk` | trunk/lttv/lttv/lttv/tracecontext.c:783-807 | putting the context back exactly when its new time stamp is finite keeps every queue invariant |
| `TraceContext.NoStopYet` | trunk/lttv/lttv/lttv/tracecontext.c:732-773 | while no hook has asked to stop, the loop's hook record extends by one call |
| `TraceContext.ProgressedStep` | trunk/lttv/lttv/lttv/tracecontext.c:783-800 | reading moves tracefiles only forward |
| `TraceContext.DeliveredStep` | trunk/lttv/lttv/lttv/tracecontext.c:751-807 | the delivered time is not after any remaining time stamp, so delivered times stay ordered |
| `TraceContext.SeekedToOk` | trunk/lttv/lttv/lttv/tracecontext.c:835-869 | a seek keeps the tracefile well formed, lands at or after the time and skips only earlier events |
| `TraceContext.AcceptedBelow` | trunk/lttv/lttv/lttv/tracecontext.c:1543-1581 | while the forward hook has not asked to stop, fewer than n events were accepted |
| `TraceContext.ForwardBound` | trunk/lttv/lttv/lttv/tracecontext.c:1543-1581 | the forward count never exceeds n and reaches it when the hook stops the read itself |
| `TraceContext.SlotAfterIsMod` | trunk/lttv/lttv/lttv/tracecontext.c:1358-1359 | the circular buffer index after k saved events is k mod len |
| `TraceContext.SeekBackData.constructor` | trunk/lttv/lttv/lttv/tracecontext.c:1418-1433 | n blank positions, first event 0, nothing found and no raw event counted |
| `TraceContext.SeekBackData.Hook` | trunk/lttv/lttv/lttv/tracecontext.c:1317-1364 | a stop request stops the read with nothing saved; a filtered-out event only counts as raw; an accepted event is saved in the current slot, the slot index wraps to 0 once it reaches `len-1`, and `events_found` becomes `min(n, events_found + 1)` |
| `TraceContext.SeekBackData.Shrink` | trunk/lttv/lttv/lttv/tracecontext.c:1477-1493 | after a round finding fewer than n events the array is cut to `n - events_found` slots and the index reset to 0 |
| `TraceContext.SeekForwardData.constructor` | trunk/lttv/lttv/lttv/tracecontext.c:1593-1613 | both counters start at 0 |
| `TraceContext.SeekForwardData.Hook` | trunk/lttv/lttv/lttv/tracecontext.c:1543-1581 | a stop request stops with nothing counted; otherwise the raw count grows, an accepted event is counted, and the read stops once n events are counted |
| `TraceContext.Requested` | trunk/lttv/lttv/lttv/tracecontext.c:1010-1010 | the requested fields are those before the terminating 0 quark |
| `TraceContext.CompleteProps` | trunk/lttv/lttv/lttv/tracecontext.c:998-1038 | the markers kept are those that have every requested field; none is kept exactly when no marker has them all |
| `TraceContext.FindField` | trunk/lttv/lttv/lttv/tracecontext.c:1012-1018 | the field loop finds the first marker field of the requested name, or reports it missing |
| `TraceContext.FindFields` | trunk/lttv/lttv/lttv/tracecontext.c:1010-1030 | a marker yields its field list exactly when it has every requested field, each at its first occurrence |
| `TraceContext.FindHook` | trunk/lttv/lttv/lttv/tracecontext.c:972-1048 | existing hooks are kept; a missing channel returns 1 and adds nothing; otherwise one hook is appended per marker with all requested fields, in order, and the result is 0 exactly when at least one was added |
| `TraceContext.HooksForSnoc` | trunk/lttv/lttv/lttv/tracecontext.c:1032-1034 | appending the hook of a complete marker extends the hooks built so far |
| `TraceContext.CompleteSnoc` | trunk/lttv/lttv/lttv/tracecontext.c:998-1038 | the markers kept after one more marker are those kept before plus that one when it is complete |
| `TraceContext.CompleteAppend` | trunk/lttv/lttv/lttv/tracecontext.c:998-1038 | the selection of complete markers distributes over concatenation |
| `TraceContext.ReadNext` | trunk/lttv/lttv/lttv/tracecontext.c:783-800 | definition of `ltt_tracefile_read` followed by the middle loop's time stamp update; its properties: `TraceContext.ReadNextOk`, `TraceContext.ReadNextSince` |
| `TraceContext.CopyGuardAsWritten` | trunk/lttv/lttv/lttv/tracecontext.c:1156 | definition of the length guard of `lttv_traceset_context_position_copy` as written; its properties: `TraceContext.CopyGuardAdmitsShortDestination` |
| `TraceContext.EventPositionCompare` | trunk/lttv/lttv/lttv/tracecontext.c:1190-1208 | definition of `ltt_event_position_compare` on positions of one tracefile; its properties: `TraceContext.EntriesCompareZero` |
| `TraceContext.CtxPosCompareOf` | trunk/lttv/lttv/lttv/tracecontext.c:1176-1211 | definition of `lttv_traceset_context_ctx_pos_compare`; its properties: `TraceContext.TracesetContext.CtxPosCompare`, `TraceContext.CtxPosCompareZero`, `TraceContext.SnapshotCompares` |
| `TraceContext.PosPosCompareOf` | trunk/lttv/lttv/lttv/tracecontext.c:1214-1261 | definition of `lttv_traceset_context_pos_pos_compare`; its properties: `TraceContext.PosPosCompare`, `TraceContext.AgreeingComparesEqual`, `TraceContext.CopyComparesEqual` |
| `TraceContext.Requeue` | trunk/lttv/lttv/lttv/tracecontext.c:783-807 | definition of the queue after the first tracefile is removed and put back when it has an event; its properties: `TraceContext.RequeueOk` |
| `TraceContext.NextSlot` | trunk/lttv/lttv/lttv/tracecontext.c:1358-1359 | definition of the next slot of the circular position array; its properties: `TraceContext.SlotAfterIsMod` |
| `TraceContext.Delivered` | trunk/lttv/lttv/lttv/tracecontext.c:751-807 | definition of the multiset of event times the tracefiles have read since a state; its properties: `TraceContext.TracesetContext.Middle`, `TraceContext.TracesetContext.Deliver` |
| `TraceContext.BagOfEmpty` | trunk/lttv/lttv/lttv/tracecontext.c:691-809 | the union of empty reads is the empty multiset |
| `TraceContext.BagAppend` | trunk/lttv/lttv/lttv/tracecontext.c:751-807 | appending one time to one tracefile's reads adds exactly that time to the union |
| `TraceContext.DeliveredNothing` | trunk/lttv/lttv/lttv/tracecontext.c:691-809 | before the loop nothing has been delivered |
| `TraceContext.ReadNextSince` | trunk/lttv/lttv/lttv/tracecontext.c:783-800 | reading the next event appends that event's time to what the tracefile has read |
| `TraceContext.DeliveredUpdate` | trunk/lttv/lttv/lttv/tracecontext.c:751-807 | one tracefile reading one more event adds that event's time to the delivered multiset |
| `Sync.ConnectionKeyEqual` | lttv/lttv/sync.c:1325-1336 | two keys are equal exactly when all four fields (both addresses, both ports) are |
| `Sync.ConnectionEqual` | lttv/lttv/sync.c:1718-1741 | two keys denote the same connection exactly when they are identical or one is the other reversed |
| `Sync.ConnectionEqualIsEquivalence` | lttv/lttv/sync.c:1718-1741 | connection equality is reflexive, symmetric and transitive, as a hash table key equality must be |
| `Sync.ConnectionHashRespectsEqual` | lttv/lttv/sync.c:1694-1741 | keys equal under `connectionEqual` have the same `connectionHash`, so both directions land in one bucket |
| `Sync.MixReversed` | lttv/lttv/sync.c:1694-1706 | the XOR of the two connection ends does not change when the key is reversed |
| `Sync.XorCommutes` | lttv/lttv/sync.c:1694-1706 | the XOR the hash uses commutes |
| `Sync.NetEventPacketEqual` | lttv/lttv/sync.c:1422-1446 | two packets are equal exactly when their key and every recorded header field are |
| `Sync.IsAcking` | lttv/lttv/sync.c:1279-1293 | a packet acknowledges another exactly when it travels on the reversed connection and its `ack_seq` is greater than the other's `seq`. This is a plain integer comparison: sequence numbers are not compared modulo 2^32, so a wrapped sequence space is not handled |
| `Sync.IsAckingSameConnection` | lttv/lttv/sync.c:1279-1293 | an acknowledgement and the packet it acknowledges share their connection and its hash, so it is found in that connection's list |
| `Sync.NeedsAck` | lttv/lttv/sync.c:1304-1315 | a packet needs an acknowledgement exactly when SYN or FIN is set or it carries a payload, `tot_len - 4·ihl - 4·doff > 0` (section 3.1 of RFC 791, section 3.1 of RFC 793) |
| `Sync.Elapsed` | lttv/lttv/sync.c:1969-1981 | the difference is exact in microseconds, and with normalised inputs its microsecond part lies in [0, 10^6) |
| `Sync.ElapsedUnique` | lttv/lttv/sync.c:1969-1981 | it is the only normalised time value with that difference |
| `Sync.TimevalBox.constructor` | lttv/lttv/sync.c:1969-1970 | a `struct timeval` holding the given seconds and microseconds |
| `Sync.TimevalBox.TimeDiff` | lttv/lttv/sync.c:1969-1981 | `end` is overwritten with `end - start` computed with the borrow |
| `Sync.GraphTraceCompare` | lttv/lttv/sync.c:1651-1671 | 0 exactly when the trace is the graph's reference or has a predecessor other than `UINT_MAX`, 1 otherwise |
| `Sync.FindGraph` | lttv/lttv/sync.c:1651-1671 | the list search stops at the first graph containing the trace |
| `Sync.ReferenceFound` | lttv/lttv/sync.c:1651-1671 | a graph's own reference trace is found no later than that graph |
| `Sync.FindList` | lttv/lttv/sync.c:1083-1083 | the unAcked table lookup finds the list of the connection (in either direction), the first one with an equal key |
| `Sync.FirstAcked` | lttv/lttv/sync.c:1088-1088 | `g_queue_find_custom` with `packetAckCompare` finds the first packet the acknowledgement acknowledges |
| `Sync.AckedBySplits` | lttv/lttv/sync.c:1088-1134 | the acknowledged and the unacknowledged packets together are the list, as a multiset |
| `Sync.AckedByMembers` | lttv/lttv/sync.c:1088-1134 | the packets taken are acknowledged by the packet and those left are not |
| `Sync.SettleConserves` | lttv/lttv/sync.c:1081-1134 | settling a connection's list loses no packet: what stays plus what is taken is the old list; a packet that is not an ACK changes nothing |
| `Sync.NoneAcked` | lttv/lttv/sync.c:1090-1090 | when the search finds nothing, nothing is taken |
| `Sync.DeleteFirstAcked` | lttv/lttv/sync.c:1096-1133 | one iteration (delete the first acknowledged packet, search again) keeps what remains to be taken |
| `Sync.Settle` | lttv/lttv/sync.c:1081-1134 | settling changes no list's key and no list count |
| `Sync.Enqueue` | lttv/lttv/sync.c:1221-1230 | a packet needing an acknowledgement ends its connection's list, which is created when missing |
| `Sync.FindListSameKeys` | lttv/lttv/sync.c:1083-1083 | the lookup depends only on the keys |
| `Sync.FindListAppend` | lttv/lttv/sync.c:1221-1228 | a list created for a new connection is the one found for it afterwards |
| `Sync.SampleOf` | lttv/lttv/sync.c:1148-1183 | an exchange gives a sample exactly when the two packets cross between the same two traces in opposite directions and those traces differ; the sample relates two different traces |
| `Sync.Paired` | lttv/lttv/sync.c:1075-1078 | the companion match completes the packet with both events, on the side given by the event type |
| `Sync.SettleOk` | lttv/lttv/sync.c:1081-1134 | settling keeps every list made of complete packets of its own connection and the keys distinct, and every packet taken is complete and acknowledged |
| `Sync.EnqueueOk` | lttv/lttv/sync.c:1212-1231 | queueing a complete packet keeps the same table invariant |
| `Sync.SyncState.constructor` | lttv/lttv/sync.c:293-449 | the unmatched tables, the unAcked table and the samples start empty |
| `Sync.SyncState.MatchEvents` | lttv/lttv/sync.c:1022-1248 | an event with no companion of the opposite type is stored in its own unmatched table and nothing else changes; otherwise the companion is removed from the opposite table and the paired packet settles the unAcked table, records a sample and is queued as `Matched` states |
| `Sync.SyncState.Acknowledge` | lttv/lttv/sync.c:1080-1235 | the processing of a paired packet leaves the unmatched tables alone and produces the `Matched` next state |
| `Sync.SyncState.TakeAcks` | lttv/lttv/sync.c:1081-1134 | the ACK loop takes out exactly the acknowledged packets of its connection's list |
| `Sync.SyncState.RecordSample` | lttv/lttv/sync.c:1137-1208 | the last acknowledged packet gives at most one sample, appended to the samples |
| `Sync.SyncState.Queue` | lttv/lttv/sync.c:1212-1231 | the packet joins its connection's unAcked list |
| `Sync.DeleteAcked` | lttv/lttv/sync.c:1088-1134 | the delete-and-search loop leaves exactly the packets not acknowledged and collects the acknowledged ones, each in list order |
| `Sync.SampleFrom` | lttv/lttv/sync.c:1137-1208 | at most one sample, and only when some packet was acknowledged |
| `Sync.ConnectionHash` | lttv/lttv/sync.c:1694-1705 | definition of `connectionHash`; its properties: `Sync.ConnectionHashRespectsEqual`, `Sync.MixReversed` |
| `DepAnalysis.PosInStack` | lttv/modules/text/depanalysis.c:259-268 | the topmost stack position holding the requested low-level state, -1 when no position does; no position above it holds that state |
| `DepAnalysis.HlevPrivateFor` | lttv/modules/text/depanalysis.c:603-688 | a blocked state records the stack below the top at entry and whether a trap sits above the innermost system call; an interrupted state records the irq or soft-irq number of the state that interrupted it |
| `DepAnalysis.HlevStep` | lttv/modules/text/depanalysis.c:532-598 | the new high-level state is the one the top of the low-level stack maps to; when it does not change nothing changes; otherwise the old state is closed at t and appended to the history unless it lasted zero time, and the new one begins at t with its private data |
| `DepAnalysis.HlevStepKeepsHistory` | lttv/modules/text/depanalysis.c:578-589 | when time does not go backwards, a transition keeps the history free of zero-length episodes and ordered by end time |
| `DepAnalysis.Popped` | lttv/modules/text/depanalysis.c:467-490 | popping drops the top state; a stack left empty is refilled with one state, so it never ends empty |
| `DepAnalysis.Refill` | lttv/modules/text/depanalysis.c:481-489 | the refill state is running after a system call and unknown otherwise, beginning when the popped state ended |
| `DepAnalysis.PopUndoesPush` | lttv/modules/text/depanalysis.c:350-490 | popping right after a push onto a non-empty stack gives back the stack before the push |
| `DepAnalysis.PoppedFits` | lttv/modules/text/depanalysis.c:467-490 | popping keeps every state's private data matching its kind and the stack non-empty |
| `DepAnalysis.Process.Stack` | lttv/modules/text/depanalysis.c:350-358 | the live stack is the first stack_current + 1 slots, each with private data matching its kind |
| `DepAnalysis.Process.constructor` | lttv/modules/text/depanalysis.c:1551-1592 | a newly discovered process has an empty low-level stack, an unknown high-level state beginning at the event time and an empty history |
| `DepAnalysis.Process.FindPosInStack` | lttv/modules/text/depanalysis.c:259-268 | the downward scan of the slots returns the position the specification function gives |
| `DepAnalysis.Process.Push` | lttv/modules/text/depanalysis.c:350-358 | a push appends the state unless the fixed-size stack is full, in which case the process aborts; the high-level state is untouched |
| `DepAnalysis.Process.Pop` | lttv/modules/text/depanalysis.c:467-490 | the new stack is the popped stack of the old one; the high-level state is untouched |
| `DepAnalysis.Process.UpdateHlevState` | lttv/modules/text/depanalysis.c:532-692 | the new high-level state and history are the transition of the old ones on the current stack at time t; the stack is unchanged |
| `DepAnalysis.Process.NewPrivate` | lttv/modules/text/depanalysis.c:600-692 | the private data built from the slots is the one the specification function gives |
| `DepAnalysis.PreparePushItem` | lttv/modules/text/depanalysis.c:309-337 | only a system-call state is pushed waiting for its pop; the item carries the pid, the state and its begin time |
| `DepAnalysis.FirstEndingAfter` | lttv/modules/text/depanalysis.c:834-886 | the first history position whose end time is after t, every earlier one ending at or before t |
| `DepAnalysis.EmptyGuard` | lttv/modules/text/depanalysis.c:841-842 | the corrected guard gives up exactly on an empty history |
| `DepAnalysis.GuardRejectsSingleState` | lttv/modules/text/depanalysis.c:841-842 | on a one-state history ending after t the guard as written gives up although that state is the answer |
| `DepAnalysis.DichoSearch` | lttv/modules/text/depanalysis.c:834-886 | the bisection returns -1 exactly when the history is empty or its last state ends at or before t; otherwise a position ending after t whose predecessor does not, which is the first such position when the history is sorted |
| `DepAnalysis.FirstIsFirst` | lttv/modules/text/depanalysis.c:834-886 | a position ending after t whose predecessor does not is the first one in a sorted history |
| `DepAnalysis.CompareStatesLength` | lttv/modules/text/depanalysis.c:1069-1077 | the comparison orders states by decreasing duration: negative exactly when the first lasted longer, zero exactly when both lasted as long |
| `DepAnalysis.CompareStatesLengthAntisymmetric` | lttv/modules/text/depanalysis.c:1069-1077 | swapping the arguments negates the comparison, as the sort needs |
| `DepAnalysis.DifferentiateSwappers` | lttv/modules/text/depanalysis.c:1594-1600 | pid 0 becomes 2000000 plus the cpu number; every other pid is kept |
| `DepAnalysis.SwappersDistinct` | lttv/modules/text/depanalysis.c:1594-1600 | swappers of different cpus get different pids, and none collides with an ordinary pid below 2000000 |
| `DepAnalysis.TimeFromString` | lttv/modules/text/depanalysis.c:1959-1976 | without a dot the whole string is the seconds and the nanoseconds are zero; with one the seconds come from the text before the first dot |
| `DepAnalysis.TimeFromStringRoundTrip` | lttv/modules/text/depanalysis.c:1959-1976 | parsing the decimal text "sec.nsec" or "sec" gives back the time it was printed from |
| `DepAnalysis.NoDotInDecimal` | lttv/modules/text/depanalysis.c:1959-1976 | a printed decimal number holds no dot, so the dot the parser looks for is the separator |
| `DepAnalysis.DotSplit` | lttv/modules/text/depanalysis.c:1963-1968 | splitting at the first dot of "a.b" gives back a and b when a has no dot |
| `DepAnalysis.AtolOfDecimal` | lttv/modules/text/depanalysis.c:1966-1973 | atol of a printed number within the long range gives back that number |
| `DepAnalysis.EmptyGuardAsWritten` | lttv/modules/text/depanalysis.c:841-842 | definition of the guard `over < 1` with `over = len - 1` as written; its properties: `DepAnalysis.GuardRejectsSingleState` |
| `GenEvent.FixedSizeDecides` | trunk/attic/genevent/genevent.c:326-376 | the fixed-size test answers, for every descriptor without a NONE type, whether its size is fixed: basic types and unions are, strings and sequences are not, a struct exactly when all its fields are, an array exactly when its element is |
| `GenEvent.FieldsFixedSizeDecides` | trunk/attic/genevent/genevent.c:353-363 | the loop over a struct's fields from position i answers whether every remaining field has a fixed size |
| `GenEvent.HasTypeFixedSize` | trunk/attic/genevent/genevent.c:326-376 | the recursive test with its field loop returns the specification function's answer, None where the source asserts on a NONE type |
| `GenEvent.HasTypeLocal` | trunk/attic/genevent/genevent.c:800-834 | a type needs a local size variable exactly when it is basic or NONE |
| `GenEvent.LocalsOnlyForFixed` | trunk/attic/genevent/genevent.c:326-834 | every type that gets a local variable has a fixed size, and a union has a fixed size without getting one |
| `GenEvent.Truncated` | trunk/attic/genevent/genevent.c:541-571 | a char[PATH_MAX] holds a prefix of the text of at most PATH_MAX - 1 characters, the whole text when it fits |
| `GenEvent.StrncatBound` | trunk/attic/genevent/genevent.c:565-570 | the corrected bound leaves room for the terminator inside the buffer |
| `GenEvent.StrncatOverrunsAsWritten` | trunk/attic/genevent/genevent.c:545-570 | as written, the bound PATH_MAX - len lets a name of PATH_MAX characters put its terminator one past the end, and strncpy of such a name leaves none |
| `GenEvent.Strncat` | trunk/attic/genevent/genevent.c:565-570 | the corrected append always fits and is plain concatenation when the whole result fits |
| `GenEvent.StrncatTruncates` | trunk/attic/genevent/genevent.c:565-570 | the corrected append is concatenation followed by truncation to the buffer |
| `GenEvent.TruncatedAppend` | trunk/attic/genevent/genevent.c:2336-2350 | truncating after each append gives the same text as truncating once at the end |
| `GenEvent.BaseName` | trunk/attic/genevent/genevent.c:541-571 | the base name is the type's own name for a named type, otherwise the nest name, a "_" when needed and the field name, truncated to the buffer |
| `GenEvent.BaseNameUnnamed` | trunk/attic/genevent/genevent.c:554-570 | the two appends of the unnamed branch build the truncated composed name |
| `GenEvent.BaseNameFits` | trunk/attic/genevent/genevent.c:541-571 | when the composed name fits it is the base name, and a named type's base name ignores the nest and field names |
| `GenEvent.NoDoubleSeparator` | trunk/attic/genevent/genevent.c:560-566 | a nest name already ending in "_" gets no second separator |
| `GenEvent.TypeAlignment` | trunk/attic/genevent/genevent.c:573-663 | the alignment expression per kind for a field or for the object itself; only NONE is an error |
| `GenEvent.ArrayAlignmentFallThrough` | trunk/attic/genevent/genevent.c:586-591 | as written, the array case of the object branch falls through and emits the array call followed by "sizeof(char)"; corrected, the array call alone |
| `GenEvent.AlignmentAgreesElsewhere` | trunk/attic/genevent/genevent.c:573-663 | every other kind, and an array field, gets the same text as written and corrected |
| `GenEvent.PrintParameters` | trunk/attic/genevent/genevent.c:1379-1416 | the parameter loop writes the destination trace, the tracefile index and the field arguments joined by ",\n", or "void" when there are none |
| `GenEvent.VoidIffNoParameters` | trunk/attic/genevent/genevent.c:1382-1415 | "void" is written exactly when the event has no per-trace, no per-tracefile and no field parameter, for any field arguments other than the text "void" itself |
| `GenEvent.JoinedStart` | trunk/attic/genevent/genevent.c:1384-1411 | the parameter list starts with its first parameter |
| `GenEvent.OutputFileName` | trunk/attic/genevent/genevent.c:2329-2351 | the output file name is the prefix, the facility name, "_" and the architecture when there is one, and the suffix, truncated to PATH_MAX |
| `GenEvent.OutputFileNameArch` | trunk/attic/genevent/genevent.c:2339-2348 | the appends of the optional architecture build the truncated name |
| `GenEvent.LogHeaderName` | trunk/attic/genevent/genevent.c:2329-2351 | short names give exactly "ltt-facility-<name>.h" and "ltt-facility-<name>_<arch>.h" |
| `GenEvent.CheckArgs` | trunk/attic/genevent/genevent.c:2982-2996 | EINVAL exactly when the file argument is missing, -1 exactly for "-h", 0 exactly otherwise |
| `GenEvent.MainExit` | trunk/attic/genevent/genevent.c:2998-3005 | main goes on to open the facility exactly when check_args returned 0, and exits with 0 on "-h" |
| `GenEvent.HelpAndMissingDiffer` | trunk/attic/genevent/genevent.c:2982-3005 | a missing argument exits with EINVAL and "-h" with 0 |
| `GenEvent.FixedSize` | trunk/attic/genevent/genevent.c:326-376 | definition of `has_type_fixed_size`, None where it asserts on NONE; its properties: `GenEvent.FixedSizeDecides`, `GenEvent.HasTypeFixedSize`, `GenEvent.LocalsOnlyForFixed` |
| `GenEvent.StrncatBoundAsWritten` | trunk/attic/genevent/genevent.c:565-570 | definition of the bound `PATH_MAX - len` passed to `strncat`; its properties: `GenEvent.StrncatOverrunsAsWritten` |
| `GenEvent.StrncpyTerminatedAsWritten` | trunk/attic/genevent/genevent.c:547-552 | definition of whether `strncpy(basename, src, PATH_MAX)` terminates the buffer; its properties: `GenEvent.StrncatOverrunsAsWritten` |
| `GenEvent.TypeAlignmentAsWritten` | trunk/attic/genevent/genevent.c:573-663 | definition of `print_type_alignment` as written, with ARRAY falling into STRING; its properties: `GenEvent.ArrayAlignmentFallThrough`, `GenEvent.AlignmentAgreesElsewhere` |
| `WindowTraces.Without` | lttv/lttv/modules/gui/lttvwindow/lttvwindow/lttvwindowtraces.c:422-452 | removing the elements with a given key never lengthens the list |
| `WindowTraces.WithoutAppend` | lttv/lttv/modules/gui/lttvwindow/lttvwindow/lttvwindowtraces.c:437-451 | the removal scan handles the last element on its own: kept exactly when its key differs |
| `WindowTraces.WithoutMembers` | lttv/lttv/modules/gui/lttvwindow/lttvwindow/lttvwindowtraces.c:437-451 | an element survives the removal exactly when it was in the list and its key differs from the one removed |
| `WindowTraces.WithoutIdempotent` | lttv/lttv/modules/gui/lttvwindow/lttvwindow/lttvwindowtraces.c:422-452 | removing twice is removing once, and a list holding no element with the key is left as it was |
| `WindowTraces.WithoutConserves` | lttv/lttv/modules/gui/lttvwindow/lttvwindow/lttvwindowtraces.c:437-451 | the removal partitions the list: what is kept and what is unlinked together are the old contents |
| `WindowTraces.RemoveAll` | lttv/lttv/modules/gui/lttvwindow/lttvwindow/lttvwindowtraces.c:437-451 | the iterate-and-unlink loop leaves exactly the elements whose key differs, in their order |
| `WindowTraces.MoveAll` | lttv/lttv/modules/gui/lttvwindow/lttvwindow/lttvwindowtraces.c:1106-1131 | moving a queue into the current list empties the queue and appends its contents in order |
| `WindowTraces.Modules` | lttv/lttv/modules/gui/lttvwindow/lttvwindow/lttvwindowtraces.c:1136-1143 | the set of modules named by a list of requests holds each request's module and nothing else |
| `WindowTraces.Pending` | lttv/lttv/modules/gui/lttvwindow/lttvwindow/lttvwindowtraces.c:1266-1310 | after a chunk a notification stays exactly when neither its time has been reached nor its position passed |
| `WindowTraces.PendingAppend` | lttv/lttv/modules/gui/lttvwindow/lttvwindow/lttvwindowtraces.c:1271-1308 | the notification scan decides the last notification on its own |
| `WindowTraces.Trace.constructor` | lttv/lttv/modules/gui/lttvwindow/lttvwindow/lttvwindowtraces.c:142-227 | a trace added to the window list is unlocked, with no flags and every request and notification list empty |
| `WindowTraces.Trace.Lock` | lttv/lttv/modules/gui/lttvwindow/lttvwindow/lttvwindowtraces.c:1906-1926 | locking succeeds with 0 on an unlocked trace and fails with -1 on a locked one; nothing else changes |
| `WindowTraces.Trace.Unlock` | lttv/lttv/modules/gui/lttvwindow/lttvwindow/lttvwindowtraces.c:1936-1953 | unlocking succeeds with 0 on a locked trace and fails with -1 on an unlocked one; the trace ends unlocked and nothing else changes |
| `WindowTraces.Trace.GetLockState` | lttv/lttv/modules/gui/lttvwindow/lttvwindow/lttvwindowtraces.c:1963-1977 | the lock state is whether the lock is held |
| `WindowTraces.Trace.SetInProgress` | lttv/lttv/modules/gui/lttvwindow/lttvwindow/lttvwindowtraces.c:892-908 | the module is flagged in progress; nothing else changes |
| `WindowTraces.Trace.UnsetInProgress` | lttv/lttv/modules/gui/lttvwindow/lttvwindow/lttvwindowtraces.c:910-922 | the module's in-progress flag is removed; nothing else changes |
| `WindowTraces.Trace.GetInProgress` | lttv/lttv/modules/gui/lttvwindow/lttvwindow/lttvwindowtraces.c:924-944 | the answer is whether the module is flagged in progress |
| `WindowTraces.Trace.SetReady` | lttv/lttv/modules/gui/lttvwindow/lttvwindow/lttvwindowtraces.c:946-962 | the module is flagged ready; nothing else changes |
| `WindowTraces.Trace.UnsetReady` | lttv/lttv/modules/gui/lttvwindow/lttvwindow/lttvwindowtraces.c:964-976 | the module's ready flag is removed; nothing else changes |
| `WindowTraces.Trace.GetReady` | lttv/lttv/modules/gui/lttvwindow/lttvwindow/lttvwindowtraces.c:978-998 | the answer is whether the module is flagged ready |
| `WindowTraces.Trace.RequestQueue` | lttv/lttv/modules/gui/lttvwindow/lttvwindow/lttvwindowtraces.c:337-375 | a request for a loaded calculator is appended to the queue; a missing calculator leaves the queue alone; nothing else changes |
| `WindowTraces.Trace.RequestRemove` | lttv/lttv/modules/gui/lttvwindow/lttvwindow/lttvwindowtraces.c:422-452 | every queued request of the module is removed, the others kept in order; nothing else changes |
| `WindowTraces.Trace.RequestFind` | lttv/lttv/modules/gui/lttvwindow/lttvwindow/lttvwindowtraces.c:459-489 | the answer is whether some queued request names the module |
| `WindowTraces.Trace.NotifyQueue` | lttv/lttv/modules/gui/lttvwindow/lttvwindow/lttvwindowtraces.c:500-557 | the notification is appended to the queued notifications; nothing else changes |
| `WindowTraces.Trace.NotifyCurrent` | lttv/lttv/modules/gui/lttvwindow/lttvwindow/lttvwindowtraces.c:559-606 | the notification is appended to the current notifications; nothing else changes |
| `WindowTraces.Trace.RemoveOwner` | lttv/lttv/modules/gui/lttvwindow/lttvwindow/lttvwindowtraces.c:636-682 | every notification of the owner is removed from both lists, the others kept in order |
| `WindowTraces.Trace.BeforeProcessing` | lttv/lttv/modules/gui/lttvwindow/lttvwindow/lttvwindowtraces.c:1101-1213 | with no current request, the queued requests and notifications become current, the queues empty and every current module is flagged in progress; otherwise nothing changes |
| `WindowTraces.Trace.NotifyDue` | lttv/lttv/modules/gui/lttvwindow/lttvwindow/lttvwindowtraces.c:1266-1310 | after a chunk the current notifications that are due are removed and the rest kept in order |
| `WindowTraces.Trace.EndOfTrace` | lttv/lttv/modules/gui/lttvwindow/lttvwindow/lttvwindowtraces.c:1313-1470 | at the end of the trace every current module moves from in progress to ready, the current lists empty, and the scheduler stays registered exactly when requests are still queued |
| `WindowTraces.FlagAll` | lttv/lttv/modules/gui/lttvwindow/lttvwindow/lttvwindowtraces.c:1136-1143 | the loop over current requests flags all their modules |
| `WindowTraces.KeepPending` | lttv/lttv/modules/gui/lttvwindow/lttvwindow/lttvwindowtraces.c:1271-1308 | the loop over current notifications keeps exactly the pending ones |
| `WindowTraces.RetireAll` | lttv/lttv/modules/gui/lttvwindow/lttvwindow/lttvwindowtraces.c:1337-1421 | the loop over current requests unflags all their modules and flags them ready |
| `WindowTraces.StartThenRetire` | lttv/lttv/modules/gui/lttvwindow/lttvwindow/lttvwindowtraces.c:1101-1470 | each request's module, once flagged in progress and then retired, is ready and no longer in progress; a module with no request keeps its in-progress flag; and removing a module's requests leaves none of its requests |
| `WindowTraces.FirstNamed` | lttv/lttv/modules/gui/lttvwindow/lttvwindow/lttvwindowtraces.c:76-97 | the lookup finds the first trace with the name, or none when no trace has it |
| `WindowTraces.Registry.GetTraceByName` | lttv/lttv/modules/gui/lttvwindow/lttvwindow/lttvwindowtraces.c:76-97 | the scan returns the first trace whose name equals the path, and nothing exactly when none does |
| `WindowTraces.Registry.NotifyRemove` | lttv/lttv/modules/gui/lttvwindow/lttvwindow/lttvwindowtraces.c:625-682 | every trace loses the owner's notifications from both lists and keeps everything else |
| `WindowTraces.CleanedIdempotent` | lttv/lttv/modules/gui/lttvwindow/lttvwindow/lttvwindowtraces.c:625-682 | removing an owner's notifications twice is removing them once |
| `WindowTraces.FirstNamedIs` | lttv/lttv/modules/gui/lttvwindow/lttvwindow/lttvwindowtraces.c:76-97 | a trace with the name and no earlier one with it is the one found |
| `TimeBar.CText` | trunk/lttv/lttv/modules/gui/lttvwindow/lttvwindow/callbacks.c:105-105 | the text strncpy copies is the C string: everything before the first NUL, the whole text when it has none |
| `TimeBar.ClipBuffer` | trunk/lttv/lttv/modules/gui/lttvwindow/lttvwindow/callbacks.c:170-173 | the clipboard buffer always holds CLIP_BUF characters |
| `TimeBar.ClipBufferAt` | trunk/lttv/lttv/modules/gui/lttvwindow/lttvwindow/callbacks.c:170-173 | the buffer holds the C string followed by NULs up to CLIP_BUF, as strncpy pads it |
| `TimeBar.SkipJunk` | trunk/lttv/lttv/modules/gui/lttvwindow/lttvwindow/callbacks.c:175-176 | skipping leading junk stops on a digit or at the last buffer position |
| `TimeBar.RunEnd` | trunk/lttv/lttv/modules/gui/lttvwindow/lttvwindow/callbacks.c:178-179 | reading a number stops on a non-digit or at the last buffer position |
| `TimeBar.NumberAt` | trunk/lttv/lttv/modules/gui/lttvwindow/lttvwindow/callbacks.c:175-180 | scanning a number never leaves the buffer |
| `TimeBar.RunDigits` | trunk/lttv/lttv/modules/gui/lttvwindow/lttvwindow/callbacks.c:178-179 | every character of the number read is a digit |
| `TimeBar.RunValueIsStrToUL` | trunk/lttv/lttv/modules/gui/lttvwindow/lttvwindow/callbacks.c:191-194 | strtoul of a run of digits is its decimal value |
| `TimeBar.Next` | trunk/lttv/lttv/modules/gui/lttvwindow/lttvwindow/callbacks.c:180-181 | the corrected step past the terminator stays inside the buffer and is the step as written whenever that one does |
| `TimeBar.TimeAt` | trunk/lttv/lttv/modules/gui/lttvwindow/lttvwindow/callbacks.c:175-188 | reading seconds then nanoseconds never leaves the buffer |
| `TimeBar.SkipOverJunk` | trunk/lttv/lttv/modules/gui/lttvwindow/lttvwindow/callbacks.c:175-176 | a buffer with no digit left is skipped to its last position |
| `TimeBar.ClipOverrunAsWritten` | trunk/lttv/lttv/modules/gui/lttvwindow/lttvwindow/callbacks.c:175-181 | as written, on an empty clipboard text the number stops at the last position and the next increment points one past the buffer; corrected, it stays inside |
| `TimeBar.SkipTo` | trunk/lttv/lttv/modules/gui/lttvwindow/lttvwindow/callbacks.c:175-176 | junk ends at the first digit |
| `TimeBar.RunTo` | trunk/lttv/lttv/modules/gui/lttvwindow/lttvwindow/callbacks.c:178-179 | a number ends at the first non-digit |
| `TimeBar.SliceDigitsAt` | trunk/lttv/lttv/modules/gui/lttvwindow/lttvwindow/callbacks.c:175-188 | a slice of digits is found at its offset |
| `TimeBar.NumberAtDigits` | trunk/lttv/lttv/modules/gui/lttvwindow/lttvwindow/callbacks.c:175-180 | skipping to a run of digits followed by a non-digit reads the run's value and stops after it |
| `TimeBar.DecimalDigits` | trunk/lttv/lttv/modules/gui/lttvwindow/lttvwindow/callbacks.c:191-194 | a printed number within the unsigned long range is a non-empty run of digits whose value is the number |
| `TimeBar.Joined` | trunk/lttv/lttv/modules/gui/lttvwindow/lttvwindow/callbacks.c:164-195 | a text joined around one separator splits back into its parts |
| `TimeBar.ShortBuffer` | trunk/lttv/lttv/modules/gui/lttvwindow/lttvwindow/callbacks.c:173-173 | a short text without NUL is copied whole and terminated |
| `TimeBar.ClipTimeRoundTrip` | trunk/lttv/lttv/modules/gui/lttvwindow/lttvwindow/callbacks.c:164-195 | pasting the text "sec.nsec" of a time sets that time |
| `TimeBar.WindowLayout` | trunk/lttv/lttv/modules/gui/lttvwindow/lttvwindow/callbacks.c:96-146 | the text "a.b c.d" has its four numbers at the offsets the scanner reaches |
| `TimeBar.WindowFromLayout` | trunk/lttv/lttv/modules/gui/lttvwindow/lttvwindow/callbacks.c:96-146 | four runs of digits laid out as "a.b c.d" are read as the start and end times of a window |
| `TimeBar.WindowInBuffer` | trunk/lttv/lttv/modules/gui/lttvwindow/lttvwindow/callbacks.c:105-137 | four runs of digits each followed by a non-digit in the buffer are read as the window |
| `TimeBar.WindowOfTimes` | trunk/lttv/lttv/modules/gui/lttvwindow/lttvwindow/callbacks.c:107-137 | the window is the first time read and the time read after it |
| `TimeBar.BufferDigitsAt` | trunk/lttv/lttv/modules/gui/lttvwindow/lttvwindow/callbacks.c:105-105 | digits of the text are found at the same offsets of the buffer |
| `TimeBar.TimeInBuffer` | trunk/lttv/lttv/modules/gui/lttvwindow/lttvwindow/callbacks.c:175-188 | seconds and nanoseconds separated by one non-digit are read as a time |
| `TimeBar.ClipWindowRoundTrip` | trunk/lttv/lttv/modules/gui/lttvwindow/lttvwindow/callbacks.c:96-146 | pasting the text "s1.n1 s2.n2" of a window sets exactly that window |
| `TimeBar.SkipLoop` | trunk/lttv/lttv/modules/gui/lttvwindow/lttvwindow/callbacks.c:175-176 | the skip loop on the buffer array stops where the specification function does |
| `TimeBar.RunLoop` | trunk/lttv/lttv/modules/gui/lttvwindow/lttvwindow/callbacks.c:178-179 | the number loop on the buffer array stops where the specification function does, over digits only |
| `TimeBar.ScanNumber` | trunk/lttv/lttv/modules/gui/lttvwindow/lttvwindow/callbacks.c:175-181 | reading one number with its loops and the NUL write gives the value and position of the specification function |
| `TimeBar.CopiedPrefix` | trunk/lttv/lttv/modules/gui/lttvwindow/lttvwindow/callbacks.c:173-173 | the strncpy loop has copied the text up to its NUL and padded the rest with NULs |
| `TimeBar.CopyText` | trunk/lttv/lttv/modules/gui/lttvwindow/lttvwindow/callbacks.c:173-173 | the copied array holds exactly the clipboard buffer |
| `TimeBar.ReceiveTime` | trunk/lttv/lttv/modules/gui/lttvwindow/lttvwindow/callbacks.c:164-195 | no text sets nothing; a text sets the time read from it |
| `TimeBar.ReceiveWindow` | trunk/lttv/lttv/modules/gui/lttvwindow/lttvwindow/callbacks.c:96-146 | no text sets nothing; a text sets the window read from it |
| `TimeBar.Before` | trunk/lttv/lttv/modules/gui/lttvwindow/lttvwindow/callbacks.c:3560-3571 | one nanosecond before a normalised non-zero time is normalised and earlier by exactly one nanosecond |
| `TimeBar.After` | trunk/lttv/lttv/modules/gui/lttvwindow/lttvwindow/callbacks.c:3650-3659 | one nanosecond after a normalised time is normalised and later by exactly one nanosecond |
| `TimeBar.StartClampKeepsSpanEndAsWritten` | trunk/lttv/lttv/modules/gui/lttvwindow/lttvwindow/callbacks.c:3570-3571 | as written, a start time equal to the trace end is kept, leaving no room before the end |
| `TimeBar.StartClampWrapsAsWritten` | trunk/lttv/lttv/modules/gui/lttvwindow/lttvwindow/callbacks.c:3570-3571 | as written, a trace ending on a whole second makes the clamped start wrap to the largest unsigned nanosecond count, after the trace end |
| `TimeBar.ClampStart` | trunk/lttv/lttv/modules/gui/lttvwindow/lttvwindow/callbacks.c:3558-3576 | the corrected start clamp lies in the span and before its end, and keeps a start already there |
| `TimeBar.ClampStartAgrees` | trunk/lttv/lttv/modules/gui/lttvwindow/lttvwindow/callbacks.c:3558-3576 | on a start before the trace end the corrected clamp gives what the source gives |
| `TimeBar.AddPositive` | trunk/lttv/lttv/modules/gui/lttvwindow/lttvwindow/callbacks.c:3578-3584 | adding a positive width moves a time later |
| `TimeBar.SubPositive` | trunk/lttv/lttv/modules/gui/lttvwindow/lttvwindow/callbacks.c:3666-3672 | subtracting a positive width moves a time earlier |
| `TimeBar.WidthPositive` | trunk/lttv/lttv/modules/gui/lttvwindow/lttvwindow/callbacks.c:3586-3589 | a window inside the span has a positive normalised width |
| `TimeBar.StartSecondsChanged` | trunk/lttv/lttv/modules/gui/lttvwindow/lttvwindow/callbacks.c:3544-3594 | a new start second gives a window inside the span starting at the clamped time; the end is kept when still after the start, otherwise pushed to start plus width or the trace end |
| `TimeBar.EndClampKeepsSpanStartAsWritten` | trunk/lttv/lttv/modules/gui/lttvwindow/lttvwindow/callbacks.c:3648-3661 | as written, an end time equal to the trace start is kept, leaving no room after the start |
| `TimeBar.ClampEnd` | trunk/lttv/lttv/modules/gui/lttvwindow/lttvwindow/callbacks.c:3648-3663 | the corrected end clamp lies in the span after its start, and keeps an end already there |
| `TimeBar.ClampEndAgrees` | trunk/lttv/lttv/modules/gui/lttvwindow/lttvwindow/callbacks.c:3648-3663 | on an end after the trace start the corrected clamp gives what the source gives |
| `TimeBar.EndSecondsChanged` | trunk/lttv/lttv/modules/gui/lttvwindow/lttvwindow/callbacks.c:3633-3684 | a new end second gives a window inside the span ending at the clamped time; the start is kept when still before the end, otherwise pulled back to end minus width or the trace start, whichever is later, and to the trace start when the width exceeds the new end |
| `TimeBar.SubAsWritten` | trunk/lttv/lttv/modules/gui/lttvwindow/lttvwindow/callbacks.c:3665-3671 | `ltt_time_sub` on unsigned fields: the difference when the second time is not later, and seconds wrapped modulo 2^64 when it is |
| `TimeBar.EndBeforeWidthWrapsAsWritten` | trunk/lttv/lttv/modules/gui/lttvwindow/lttvwindow/callbacks.c:3665-3671 | as written, a new end second of 20 under a 50-second window wraps the start to 2^64-30 seconds, after the end, which the start-before-end assertion of `time_change_manager` rejects; the corrected window starts at the trace start |
| `TimeBar.EndSecondsChangedAgrees` | trunk/lttv/lttv/modules/gui/lttvwindow/lttvwindow/callbacks.c:3633-3684 | for an end after the trace start and no shorter than the width, the corrected window is the one the source computes |
| `TimeBar.CurrentSecondsChanged` | trunk/lttv/lttv/modules/gui/lttvwindow/lttvwindow/callbacks.c:3927-3956 | a new current second keeps its nanoseconds unless the second is the span's first or last, and the result lies in the span; a time already inside it is kept |
| `TimeBar.ResetOvershootsAsWritten` | trunk/lttv/lttv/modules/gui/lttvwindow/lttvwindow/callbacks.c:484-487 | as written, a short trace starting at 100 s makes the reset window end near 200 s, far past the trace end, because the width taken is the end time itself |
| `TimeBar.ResetWindow` | trunk/lttv/lttv/modules/gui/lttvwindow/lttvwindow/callbacks.c:466-576 | a window already inside the span and the current time are left as they are |
| `TimeBar.ResetFitsSpan` | trunk/lttv/lttv/modules/gui/lttvwindow/lttvwindow/callbacks.c:474-495 | a window outside the span is reset to start at the trace start, the current time with it, and fits the span; a span no longer than the default width is shown whole |
| `TimeBar.ClipWindow` | trunk/lttv/lttv/modules/gui/lttvwindow/lttvwindow/callbacks.c:96-146 | definition of the window `MEventBox1a_receive` reads from the first four digit runs; its properties: `TimeBar.ClipWindowRoundTrip`, `TimeBar.ReceiveWindow` |
| `TimeBar.NextAsWritten` | trunk/lttv/lttv/modules/gui/lttvwindow/lttvwindow/callbacks.c:175-181 | definition of the `ptr++` past the number's terminator as written; its properties: `TimeBar.ClipOverrunAsWritten` |
| `TimeBar.ClampStartAsWritten` | trunk/lttv/lttv/modules/gui/lttvwindow/lttvwindow/callbacks.c:3558-3576 | definition of the start clamp of on_MEntry1 as written, with `end.nsec - 1`; its properties: `TimeBar.StartClampWrapsAsWritten`, `TimeBar.StartClampKeepsSpanEndAsWritten`, `TimeBar.ClampStartAgrees` |
| `TimeBar.ClampEndAsWritten` | trunk/lttv/lttv/modules/gui/lttvwindow/lttvwindow/callbacks.c:3648-3663 | definition of the end clamp of on_MEntry3 as written; its properties: `TimeBar.EndClampKeepsSpanStartAsWritten`, `TimeBar.ClampEndAgrees` |
| `TimeBar.EndSecondsChangedAsWritten` | trunk/lttv/lttv/modules/gui/lttvwindow/lttvwindow/callbacks.c:3633-3684 | definition of on_MEntry3's new window as written, with the wrapping subtraction; its properties: `TimeBar.EndBeforeWidthWrapsAsWritten`, `TimeBar.EndSecondsChangedAgrees` |
| `TimeBar.ResetWindowAsWritten` | trunk/lttv/lttv/modules/gui/lttvwindow/lttvwindow/callbacks.c:466-576 | definition of the window `SetTraceset` computes as written, with the span's end time as width; its properties: `TimeBar.ResetOvershootsAsWritten` |
| `TimeBar.ClipTime` | trunk/lttv/lttv/modules/gui/lttvwindow/lttvwindow/callbacks.c:164-195 | definition of the time `MEventBox1b_receive` reads from the first two digit runs; its properties: `TimeBar.ClipTimeRoundTrip`, `TimeBar.ReceiveTime` |
| `Callbacks.EarliestFromIsMinimum` | trunk/lttv/lttv/modules/gui/lttvwindow/lttvwindow/callbacks.c:1369-1393 | the scan for the earliest key time keeps a time no later than the start time and every key, and equal to the start time or to one of the keys |
| `Callbacks.EarliestIsMinimum` | trunk/lttv/lttv/modules/gui/lttvwindow/lttvwindow/callbacks.c:1372-1382 | the earliest key of a non-empty list is no later than every key and is one of them |
| `Callbacks.EarliestSnoc` | trunk/lttv/lttv/modules/gui/lttvwindow/lttvwindow/callbacks.c:1039-1054 | scanning one more request keeps the earlier of its key and the earliest so far |
| `Callbacks.AtTimeIn` | trunk/lttv/lttv/modules/gui/lttvwindow/lttvwindow/callbacks.c:1034-1055 | the requests kept for a start time are exactly the waiting requests starting then |
| `Callbacks.AtTimeCount` | trunk/lttv/lttv/modules/gui/lttvwindow/lttvwindow/callbacks.c:1034-1055 | the requests kept for a start time are taken from the waiting list, no request more often than it waits |
| `Callbacks.AtTimeMembers` | trunk/lttv/lttv/modules/gui/lttvwindow/lttvwindow/callbacks.c:1034-1055 | the requests kept for a start time are exactly the waiting ones starting then, taken from the list, and none when no request starts then |
| `Callbacks.LowestTimeExactly` | trunk/lttv/lttv/modules/gui/lttvwindow/lttvwindow/callbacks.c:1034-1055 | ltime holds exactly the waiting requests whose start time is the lowest, taken from the waiting list |
| `Callbacks.LowestTimeHead` | trunk/lttv/lttv/modules/gui/lttvwindow/lttvwindow/callbacks.c:1034-1055 | ltime is never empty and its first request starts at the lowest start time |
| `Callbacks.LowestTimeSnoc` | trunk/lttv/lttv/modules/gui/lttvwindow/lttvwindow/callbacks.c:1043-1053 | a request starting at the current lowest time is appended, an earlier one replaces the list, a later one is skipped |
| `Callbacks.FindLowestTime` | trunk/lttv/lttv/modules/gui/lttvwindow/lttvwindow/callbacks.c:1034-1055 | the loop with its clear-and-append step builds exactly ltime |
| `Callbacks.LowestPosition` | trunk/lttv/lttv/modules/gui/lttvwindow/lttvwindow/callbacks.c:1057-1089 | lpos is never empty |
| `Callbacks.LowestPositionCount` | trunk/lttv/lttv/modules/gui/lttvwindow/lttvwindow/callbacks.c:1057-1089 | lpos is taken from the waiting list |
| `Callbacks.LowestPositionEqual` | trunk/lttv/lttv/modules/gui/lttvwindow/lttvwindow/callbacks.c:1066-1088 | when lpos holds more than one request all have start positions, and every one compares equal to the first |
| `Callbacks.LowestPositionShares` | trunk/lttv/lttv/modules/gui/lttvwindow/lttvwindow/callbacks.c:1057-1089 | lpos is taken from the waiting list and, when it holds several requests, they all start at the same position |
| `Callbacks.LowestPositionTimeFirst` | trunk/lttv/lttv/modules/gui/lttvwindow/lttvwindow/callbacks.c:1071-1080 | a first request without a start position makes every comparison -1, so lpos is that request alone |
| `Callbacks.FindLowestPosition` | trunk/lttv/lttv/modules/gui/lttvwindow/lttvwindow/callbacks.c:1057-1089 | the loop with its clear-and-append step builds exactly lpos |
| `Callbacks.Selected` | trunk/lttv/lttv/modules/gui/lttvwindow/lttvwindow/callbacks.c:1091-1127 | the requests moved to list_in are never none |
| `Callbacks.SelectedChoice` | trunk/lttv/lttv/modules/gui/lttvwindow/lttvwindow/callbacks.c:1091-1127 | list_in is taken from the waiting list: lpos when its position time is before every waiting start time, ltime otherwise |
| `Callbacks.RemoveFirstCount` | trunk/lttv/lttv/modules/gui/lttvwindow/lttvwindow/callbacks.c:1110-1110 | g_slist_remove drops one occurrence of the request |
| `Callbacks.RemoveEachCount` | trunk/lttv/lttv/modules/gui/lttvwindow/lttvwindow/callbacks.c:1103-1125 | removing every moved request takes exactly those requests out of the waiting list |
| `Callbacks.MultisetMinusTwice` | trunk/lttv/lttv/modules/gui/lttvwindow/lttvwindow/callbacks.c:1103-1125 | removing two groups one after the other is removing both at once |
| `Callbacks.MoveConserves` | trunk/lttv/lttv/modules/gui/lttvwindow/lttvwindow/callbacks.c:1098-1127 | moving requests to list_in neither loses nor duplicates any: list_in and what waits together are the old waiting list |
| `Callbacks.Move` | trunk/lttv/lttv/modules/gui/lttvwindow/lttvwindow/callbacks.c:1103-1125 | the move loop appends each chosen request to list_in and removes it from the waiting list |
| `Callbacks.Begun` | trunk/lttv/lttv/modules/gui/lttvwindow/lttvwindow/callbacks.c:1209-1220 | after the before-request step every request in list_in is marked servicing and otherwise unchanged |
| `Callbacks.Begin` | trunk/lttv/lttv/modules/gui/lttvwindow/lttvwindow/callbacks.c:1209-1220 | the loop over list_in marks every request servicing |
| `Callbacks.ChunkEndTimeIsMinimum` | trunk/lttv/lttv/modules/gui/lttvwindow/lttvwindow/callbacks.c:1369-1393 | the chunk end time is no later than every end time in list_in and every start time waiting, and is one of them |
| `Callbacks.FewestFromIsMinimum` | trunk/lttv/lttv/modules/gui/lttvwindow/lttvwindow/callbacks.c:1397-1407 | the scan for the fewest events keeps a number no larger than the start value and every count, equal to one of them |
| `Callbacks.ChunkEventsIsMinimum` | trunk/lttv/lttv/modules/gui/lttvwindow/lttvwindow/callbacks.c:1395-1413 | a chunk reads at most CHUNK_NUM_EVENTS events and at most what each request in list_in still wants, and that bound is reached by one of them |
| `Callbacks.PositionsFromPresent` | trunk/lttv/lttv/modules/gui/lttvwindow/lttvwindow/callbacks.c:1416-1446 | the corrected position scan has no position exactly when none was there to take, and otherwise keeps one it was given |
| `Callbacks.ChunkEndPositionPresent` | trunk/lttv/lttv/modules/gui/lttvwindow/lttvwindow/callbacks.c:1416-1446 | the corrected chunk end position is missing exactly when no request in list_in has an end position and no waiting request a start position, and otherwise is one of them |
| `Callbacks.AsWrittenStaysMissing` | trunk/lttv/lttv/modules/gui/lttvwindow/lttvwindow/callbacks.c:1425-1427 | as written, a scan that starts with no position never takes one, because each step requires the kept position to be present |
| `Callbacks.EndPositionBlockedAsWritten` | trunk/lttv/lttv/modules/gui/lttvwindow/lttvwindow/callbacks.c:1421-1446 | as written, when the first request of list_in has no end position the chunk has none either |
| `Callbacks.EndPositionMissedAsWritten` | trunk/lttv/lttv/modules/gui/lttvwindow/lttvwindow/callbacks.c:1421-1430 | as written, a second request's end position is missed after a first request without one; corrected, it bounds the chunk |
| `Callbacks.StartPositionIgnoredAsWritten` | trunk/lttv/lttv/modules/gui/lttvwindow/lttvwindow/callbacks.c:1434-1445 | as written, the waiting requests' end positions are scanned instead of their start positions, so an earlier waiting start position does not end the chunk; corrected, it does |
| `Callbacks.FindEndTime` | trunk/lttv/lttv/modules/gui/lttvwindow/lttvwindow/callbacks.c:1369-1393 | the two loops give the chunk end time |
| `Callbacks.FindEndEvents` | trunk/lttv/lttv/modules/gui/lttvwindow/lttvwindow/callbacks.c:1395-1413 | the loop and the MIN give the chunk event count |
| `Callbacks.FindEndPosition` | trunk/lttv/lttv/modules/gui/lttvwindow/lttvwindow/callbacks.c:1416-1446 | the two corrected loops give the chunk end position |
| `Callbacks.Lower` | trunk/lttv/lttv/modules/gui/lttvwindow/lttvwindow/callbacks.c:1425-1429 | one step of the position scan keeps the lower of two positions, taking a present one over a missing one |
| `Callbacks.KeptExactly` | trunk/lttv/lttv/modules/gui/lttvwindow/lttvwindow/callbacks.c:1526-1600 | after a chunk the requests kept in list_in are exactly those, charged with the events read, that have events left, are not stopped, have not reached their end time and are not at their end position |
| `Callbacks.Requeued` | trunk/lttv/lttv/modules/gui/lttvwindow/lttvwindow/callbacks.c:1621-1652 | every request left in list_in goes back to wait with the current position as its start position and an infinite start time |
| `Callbacks.Retire` | trunk/lttv/lttv/modules/gui/lttvwindow/lttvwindow/callbacks.c:1461-1600 | the after-chunk loop leaves exactly the kept requests, or none when the traceset end was passed |
| `Callbacks.Requeue` | trunk/lttv/lttv/modules/gui/lttvwindow/lttvwindow/callbacks.c:1621-1652 | the loop appends the requeued requests to the waiting list in order |
| `Callbacks.SelectedCovered` | trunk/lttv/lttv/modules/gui/lttvwindow/lttvwindow/callbacks.c:1561-1563 | a chunk that reads no more than the chunk bound never takes a request's count below zero |
| `Callbacks.RequeuedResumed` | trunk/lttv/lttv/modules/gui/lttvwindow/lttvwindow/callbacks.c:1526-1652 | each request put back is one that was served, charged and not finished, resuming from the current position |
| `Callbacks.ServicedUnfold` | trunk/lttv/lttv/modules/gui/lttvwindow/lttvwindow/callbacks.c:1024-1652 | one scheduler call leaves the requests that were not chosen followed by the chosen ones still unfinished, requeued |
| `Callbacks.PutBack` | trunk/lttv/lttv/modules/gui/lttvwindow/lttvwindow/callbacks.c:1621-1652 | the requests that waited come first and every request after them is a resumed one |
| `Callbacks.ServicedShape` | trunk/lttv/lttv/modules/gui/lttvwindow/lttvwindow/callbacks.c:1024-1652 | the waiting list after one call is no longer than before, starts with the requests not chosen, and continues with chosen requests resumed from the current position |
| `Callbacks.Service` | trunk/lttv/lttv/modules/gui/lttvwindow/lttvwindow/callbacks.c:1024-1652 | the selection, end criteria, chunk and retire steps give the waiting list the specification function gives |
| `Callbacks.UnlockFirst` | trunk/lttv/lttv/modules/gui/lttvwindow/lttvwindow/callbacks.c:1657-1672 | the first n traces are unlocked and everything else is untouched |
| `Callbacks.LockAll` | trunk/lttv/lttv/modules/gui/lttvwindow/lttvwindow/callbacks.c:995-1009 | locking succeeds exactly when no trace was locked; on failure every trace is left as it was |
| `Callbacks.LockAllAsWritten` | trunk/lttv/lttv/modules/gui/lttvwindow/lttvwindow/callbacks.c:995-1009 | as written, locking succeeds exactly when no trace was locked, but on failure the traces before the locked one stay locked |
| `Callbacks.LockLeakAsWritten` | trunk/lttv/lttv/modules/gui/lttvwindow/lttvwindow/callbacks.c:995-1009 | as written, a failed attempt leaves the first trace locked, so the attempt after the second trace is released fails too |
| `Callbacks.LockRetry` | trunk/lttv/lttv/modules/gui/lttvwindow/lttvwindow/callbacks.c:995-1009 | with the failed attempt undone, the attempt after the release locks the traceset |
| `Callbacks.Tab.constructor` | trunk/lttv/lttv/modules/gui/lttvwindow/lttvwindow/callbacks.c:4443-4843 | a new tab has no request, nothing pending, no stop, and both time managers unlocked |
| `Callbacks.Tab.ProcessPendingRequests` | trunk/lttv/lttv/modules/gui/lttvwindow/lttvwindow/callbacks.c:923-1686 | a preempted call, or one that cannot lock every trace, changes no request and stays registered; an empty traceset drops every request and unregisters; otherwise the waiting list becomes the serviced list, the traces end unlocked and the call stays registered exactly when requests remain |
| `Callbacks.Tab.StopProcessing` | trunk/lttv/lttv/modules/gui/lttvwindow/lttvwindow/callbacks.c:2152-2177 | stopping drops every request, clears the pending flag and sets the stop flag; nothing else changes |
| `Callbacks.Tab.TimeChangeManager` | trunk/lttv/lttv/modules/gui/lttvwindow/lttvwindow/callbacks.c:3370-3535 | a nested call does nothing; otherwise the window becomes the new one and the lock is released again |
| `Callbacks.Tab.CurrentTimeChangeManager` | trunk/lttv/lttv/modules/gui/lttvwindow/lttvwindow/callbacks.c:3858-3905 | a nested call does nothing; otherwise the current time becomes the new one and the lock is released again |
| `Callbacks.Tab.OnStartSecondsChanged` | trunk/lttv/lttv/modules/gui/lttvwindow/lttvwindow/callbacks.c:3544-3594 | a new start second sets the window the time bar computes, unless a time change is under way |
| `Callbacks.Tab.OnEndSecondsChanged` | trunk/lttv/lttv/modules/gui/lttvwindow/lttvwindow/callbacks.c:3633-3684 | a new end second sets the corrected window of `TimeBar.EndSecondsChanged`, with the start at the trace start where the source wraps, unless a time change is under way |
| `Callbacks.Tab.OnCurrentSecondsChanged` | trunk/lttv/lttv/modules/gui/lttvwindow/lttvwindow/callbacks.c:3927-3956 | a new current second sets the time the time bar computes, unless a current-time change is under way |
| `Callbacks.PositionCompare` | trunk/lttv/lttv/modules/gui/lttvwindow/lttvwindow/callbacks.c:1066-1075 | definition of the step 1.1.2 comparison: `pos_pos_compare` when both requests have a start position, else -1; its properties: `Callbacks.LowestPositionEqual`, `Callbacks.LowestPositionShares` |
| `Callbacks.RemoveFirst` | trunk/lttv/lttv/modules/gui/lttvwindow/lttvwindow/callbacks.c:1110 | definition of `g_slist_remove`; its properties: `Callbacks.RemoveFirstCount`, `Callbacks.RemoveEachCount` |
| `Callbacks.LowerAsWritten` | trunk/lttv/lttv/modules/gui/lttvwindow/lttvwindow/callbacks.c:1425-1429 | definition of the position step of step 3.3 as written, keeping a missing position; its properties: `Callbacks.AsWrittenStaysMissing` |
| `Callbacks.PositionsFromAsWritten` | trunk/lttv/lttv/modules/gui/lttvwindow/lttvwindow/callbacks.c:1416-1446 | definition of the step 3.3 position scan as written, folded with `LowerAsWritten`; its properties: `Callbacks.AsWrittenStaysMissing`, `Callbacks.EndPositionBlockedAsWritten` |
| `Callbacks.EndPositionAsWritten` | trunk/lttv/lttv/modules/gui/lttvwindow/lttvwindow/callbacks.c:1416-1446 | definition of step 3.3 as written, scanning the end positions twice; its properties: `Callbacks.EndPositionMissedAsWritten`, `Callbacks.StartPositionIgnoredAsWritten` |
| `Callbacks.EarliestFrom` | trunk/lttv/lttv/modules/gui/lttvwindow/lttvwindow/callbacks.c:1369-1393 | definition of the earliest-time scans of steps 1.1.1 and 3.1; its properties: `Callbacks.EarliestFromIsMinimum`, `Callbacks.EarliestSnoc` |
| `Callbacks.Earliest` | trunk/lttv/lttv/modules/gui/lttvwindow/lttvwindow/callbacks.c:1372-1382 | definition of the earliest key time of a non-empty list; its properties: `Callbacks.EarliestIsMinimum` |
| `Callbacks.AtTime` | trunk/lttv/lttv/modules/gui/lttvwindow/lttvwindow/callbacks.c:1034-1055 | definition of the requests that start at a given time; its properties: `Callbacks.AtTimeIn`, `Callbacks.AtTimeCount`, `Callbacks.AtTimeMembers` |
| `Callbacks.LowestTime` | trunk/lttv/lttv/modules/gui/lttvwindow/lttvwindow/callbacks.c:1034-1055 | definition of `ltime`, the waiting requests with the earliest start time; its properties: `Callbacks.LowestTimeExactly`, `Callbacks.LowestTimeHead` |
| `Callbacks.RemoveEach` | trunk/lttv/lttv/modules/gui/lttvwindow/lttvwindow/callbacks.c:1103-1125 | definition of removing each selected request in turn; its properties: `Callbacks.RemoveEachCount`, `Callbacks.MoveConserves` |
| `Callbacks.ChunkEndTime` | trunk/lttv/lttv/modules/gui/lttvwindow/lttvwindow/callbacks.c:1369-1393 | definition of step 3.1's end time; its properties: `Callbacks.ChunkEndTimeIsMinimum`, `Callbacks.FindEndTime` |
| `Callbacks.FewestFrom` | trunk/lttv/lttv/modules/gui/lttvwindow/lttvwindow/callbacks.c:1397-1407 | definition of step 3.2.1's scan for the fewest events; its properties: `Callbacks.FewestFromIsMinimum` |
| `Callbacks.ChunkEvents` | trunk/lttv/lttv/modules/gui/lttvwindow/lttvwindow/callbacks.c:1395-1413 | definition of step 3.2's event count; its properties: `Callbacks.ChunkEventsIsMinimum`, `Callbacks.FindEndEvents` |
| `Callbacks.LowerPosition` | trunk/lttv/lttv/modules/gui/lttvwindow/lttvwindow/callbacks.c:1425-1429 | definition of the corrected position step of step 3.3; its properties: `Callbacks.Lower`, `Callbacks.PositionsFromPresent` |
| `Callbacks.PositionsFrom` | trunk/lttv/lttv/modules/gui/lttvwindow/lttvwindow/callbacks.c:1416-1446 | definition of the corrected position scan of step 3.3; its properties: `Callbacks.PositionsFromPresent` |
| `Callbacks.ChunkEndPosition` | trunk/lttv/lttv/modules/gui/lttvwindow/lttvwindow/callbacks.c:1416-1446 | definition of step 3.3's end position as intended; its properties: `Callbacks.ChunkEndPositionPresent`, `Callbacks.FindEndPosition` |
| `XenoThreadList.SortIgnoresPriorityAsWritten` | lttng-xenomai/LinuxTraceToolkitViewer-0.8.61-xenoltt/lttv/modules/gui/xenoltt/xenoltt_threadlist.c:84-87 | as written, the priority test only runs when both priorities are 0, so rows are ordered by birth time and trace alone |
| `XenoThreadList.SortTiesPrioritiesAsWritten` | lttng-xenomai/LinuxTraceToolkitViewer-0.8.61-xenoltt/lttv/modules/gui/xenoltt/xenoltt_threadlist.c:45-105 | as written, two rows born at the same time in the same trace compare equal whatever their priorities |
| `XenoThreadList.SortIsOrder` | lttng-xenomai/LinuxTraceToolkitViewer-0.8.61-xenoltt/lttv/modules/gui/xenoltt/xenoltt_threadlist.c:45-105 | the corrected comparison is antisymmetric and transitive, ties exactly on equal rank, and puts a higher priority first |
| `XenoThreadList.BirthOrderIsOrder` | lttng-xenomai/LinuxTraceToolkitViewer-0.8.61-xenoltt/lttv/modules/gui/xenoltt/xenoltt_threadlist.c:89-102 | ordering by birth second, birth nanosecond and trace is antisymmetric and transitive and ties exactly on equal birth and trace |
| `XenoThreadList.EqualAsWrittenExactly` | lttng-xenomai/LinuxTraceToolkitViewer-0.8.61-xenoltt/lttv/modules/gui/xenoltt/xenoltt_threadlist.c:114-133 | as written, two keys are equal exactly when their addresses are equal and non-zero and their birth and trace agree; the cpu never matters |
| `XenoThreadList.EqualIrreflexiveAsWritten` | lttng-xenomai/LinuxTraceToolkitViewer-0.8.61-xenoltt/lttv/modules/gui/xenoltt/xenoltt_threadlist.c:121-124 | as written, a key with address 0 is not equal to itself |
| `XenoThreadList.EqualIsEquivalence` | lttng-xenomai/LinuxTraceToolkitViewer-0.8.61-xenoltt/lttv/modules/gui/xenoltt/xenoltt_threadlist.c:107-133 | the corrected equality is reflexive, symmetric and transitive, and equal normalised keys hash alike, as a hash table needs |
| `XenoThreadList.IdleCpusDiffer` | lttng-xenomai/LinuxTraceToolkitViewer-0.8.61-xenoltt/lttv/modules/gui/xenoltt/xenoltt_threadlist.c:114-133 | idle threads (address 0) of different cpus are different keys, while a real thread's cpu is ignored |
| `XenoThreadList.FindEntry` | lttng-xenomai/LinuxTraceToolkitViewer-0.8.61-xenoltt/lttv/modules/gui/xenoltt/xenoltt_threadlist.c:703-706 | a lookup found an entry whose key matches, and finds none exactly when no entry matches |
| `XenoThreadList.FindEntryAsWritten` | lttng-xenomai/LinuxTraceToolkitViewer-0.8.61-xenoltt/lttv/modules/gui/xenoltt/xenoltt_threadlist.c:703-706 | as written, a lookup finds nothing exactly when no entry has the same hash and an equal key under the as-written equality |
| `XenoThreadList.IdleNeverFoundAsWritten` | lttng-xenomai/LinuxTraceToolkitViewer-0.8.61-xenoltt/lttv/modules/gui/xenoltt/xenoltt_threadlist.c:703-706 | as written, an idle thread key is never found, so it can never be removed |
| `XenoThreadList.IdleFound` | lttng-xenomai/LinuxTraceToolkitViewer-0.8.61-xenoltt/lttv/modules/gui/xenoltt/xenoltt_threadlist.c:583-706 | with the corrected equality, an idle thread just added is found again |
| `XenoThreadList.FirstMatch` | lttng-xenomai/LinuxTraceToolkitViewer-0.8.61-xenoltt/lttv/modules/gui/xenoltt/xenoltt_threadlist.c:703-706 | the entry found is the first one matching |
| `XenoThreadList.RemoveAt` | lttng-xenomai/LinuxTraceToolkitViewer-0.8.61-xenoltt/lttv/modules/gui/xenoltt/xenoltt_threadlist.c:712-713 | removing an entry keeps the others in order |
| `XenoThreadList.RowsWithout` | lttng-xenomai/LinuxTraceToolkitViewer-0.8.61-xenoltt/lttv/modules/gui/xenoltt/xenoltt_threadlist.c:710-710 | the row of the removed thread leaves the list store and every other row stays |
| `XenoThreadList.ClearSlot` | lttng-xenomai/LinuxTraceToolkitViewer-0.8.61-xenoltt/lttv/modules/gui/xenoltt/xenoltt_threadlist.c:715-719 | the current slot of the thread's trace and cpu is cleared exactly when it held the removed thread; the other slots are kept |
| `XenoThreadList.RowsClearedExactly` | lttng-xenomai/LinuxTraceToolkitViewer-0.8.61-xenoltt/lttv/modules/gui/xenoltt/xenoltt_threadlist.c:507-524 | clearing leaves exactly the rows that belonged to no hashed thread |
| `XenoThreadList.ThreadList.constructor` | lttng-xenomai/LinuxTraceToolkitViewer-0.8.61-xenoltt/lttv/modules/gui/xenoltt/xenoltt_threadlist.c:330-380 | a new list has no thread, no row, a zero count and no current slots |
| `XenoThreadList.ThreadList.Add` | lttng-xenomai/LinuxTraceToolkitViewer-0.8.61-xenoltt/lttv/modules/gui/xenoltt/xenoltt_threadlist.c:583-660 | adding builds the key with the cpu kept only for idle threads, inserts or replaces the hashed entry, appends the row, counts one more thread and returns the cell height times the count |
| `XenoThreadList.ThreadList.Remove` | lttng-xenomai/LinuxTraceToolkitViewer-0.8.61-xenoltt/lttv/modules/gui/xenoltt/xenoltt_threadlist.c:673-721 | removing an absent key returns 1 and changes nothing; a present one returns 0, drops its entry and row, counts one thread less and clears its current slot; afterwards the key is absent |
| `XenoThreadList.ClearEntries` | lttng-xenomai/LinuxTraceToolkitViewer-0.8.61-xenoltt/lttv/modules/gui/xenoltt/xenoltt_threadlist.c:526-535 | The clearing loop leaves the rows and `current_hash_data` slots that removing each entry in turn would leave. |
| `XenoThreadList.ThreadList.Clear` | lttng-xenomai/LinuxTraceToolkitViewer-0.8.61-xenoltt/lttv/modules/gui/xenoltt/xenoltt_threadlist.c:526-535 | clearing removes every entry and every hashed row, clears the current slots of the removed threads and resets the count |
| `XenoThreadList.InsertKeepsKeys` | lttng-xenomai/LinuxTraceToolkitViewer-0.8.61-xenoltt/lttv/modules/gui/xenoltt/xenoltt_threadlist.c:634-636 | inserting keeps the keys normalised and pairwise different, and adds one entry when the key was absent |
| `XenoThreadList.RemoveKeepsKeys` | lttng-xenomai/LinuxTraceToolkitViewer-0.8.61-xenoltt/lttv/modules/gui/xenoltt/xenoltt_threadlist.c:712-713 | removing keeps the keys normalised and pairwise different, and the removed key is absent afterwards |
| `XenoThreadList.OtherKeyDiffers` | lttng-xenomai/LinuxTraceToolkitViewer-0.8.61-xenoltt/lttv/modules/gui/xenoltt/xenoltt_threadlist.c:712-713 | with pairwise different keys, no other entry matches the removed key |
| `XenoThreadList.SortAsWritten` | lttng-xenomai/LinuxTraceToolkitViewer-0.8.61-xenoltt/lttv/modules/gui/xenoltt/xenoltt_threadlist.c:45-105 | definition of `thread_sort_func` as written, with the priority test under the priority-0 branch; its properties: `XenoThreadList.SortIgnoresPriorityAsWritten`, `XenoThreadList.SortTiesPrioritiesAsWritten` |
| `XenoThreadList.Sort` | lttng-xenomai/LinuxTraceToolkitViewer-0.8.61-xenoltt/lttv/modules/gui/xenoltt/xenoltt_threadlist.c:45-105 | definition of `thread_sort_func` with its priority step applied; its properties: `XenoThreadList.SortIsOrder` |
| `XenoThreadList.Hash` | lttng-xenomai/LinuxTraceToolkitViewer-0.8.61-xenoltt/lttv/modules/gui/xenoltt/xenoltt_threadlist.c:107-111 | definition of `thread_list_hash_fct`; its properties: `XenoThreadList.EqualIsEquivalence` |
| `XenoThreadList.EqualAsWritten` | lttng-xenomai/LinuxTraceToolkitViewer-0.8.61-xenoltt/lttv/modules/gui/xenoltt/xenoltt_threadlist.c:114-133 | definition of `thread_list_equ_fct` as written; its properties: `XenoThreadList.EqualAsWrittenExactly`, `XenoThreadList.EqualIrreflexiveAsWritten` |
| `XenoThreadList.Equal` | lttng-xenomai/LinuxTraceToolkitViewer-0.8.61-xenoltt/lttv/modules/gui/xenoltt/xenoltt_threadlist.c:114-133 | definition of `thread_list_equ_fct` with the address-0 test comparing CPUs; its properties: `XenoThreadList.EqualIsEquivalence`, `XenoThreadList.IdleCpusDiffer` |

## Left out

- File, mmap and directory I/O are left out: opening tracefiles, `map_block`'s mapping, saved-state files, XML dumps, genevent's `fopen`/`fprintf` output, and sync option handling. Where a mapped block is needed, it is a byte sequence given as a parameter.
- GTK widgets, dialogs, pixmaps, drawing, and the idle-callback scheduling with `g_idle_add` are left out. The schedulers are modelled as one sequential call.
- Floating point is left out: `ltt_interpolate_time_from_tsc`, zoom arithmetic and `ltt_time_to_double`, and in `sync.c` the least-squares fit, `factors` and `sumDistances`. `Sync.Sample` records the cycle counts that the fit would receive.
- Hook lists and GLib quarks are left out. Hooks, `lttv_trace_find_hook`'s marker lookup and the filters' verdicts become parameters. Quarks are natural numbers, and `g_quark_from_string` is the parameter `intern`.
- These headers are not part of this model, so their values are assumed:
  - `ltt/time.h`: the lexicographic order, add with carry, subtract with borrow, and an infinite time of `(G_MAXUINT, 10^9)`;
  - `ltt/ltt-private.h`: the magic number `0x00D6B7ED` and an alignment of 0;
  - `sync.h`: 32-bit addresses and 16-bit ports;
  - `lttvwindow.h`: `CHUNK_NUM_EVENTS` is a parameter;
  - `xenoltt_threadlist.h`: the field order of the thread key.
- `TracefileSeek.TimeCursor.SeekTime` models only the bisection it performs within one block list. The events of a block are represented by their times.
- `TracefileSeek.TimeCursor` represents a tracefile's events by their times alone. It is a separate abstraction of an `LttTracefile` and is not refined from `TracefileReader.Tracefile`, which models the byte-level header decoding.
- `TracefileReader.Tracefile.DecodeEvent` reports Fatal for a header that runs past the mapped block. `ltt_tracefile_read_update_event` (tracefile.c:1264ff) checks no bound and reads past the block, which the model does not represent.
- `TracefileReader.Tracefile.MapBlock` assumes that every block has the tracefile's `buf_size`. `map_block` asserts that the block header's `buf_size` equals the tracefile's (tracefile.c:1415-1416) and aborts otherwise; the block header field and that abort are not modelled.
- `TracefileName.Tail`: in the userspace branch, when no '.' follows the pgid, the source's `i++` moves the pointer one past the terminator and `strtoull` reads outside the name. The model cannot read that memory, so `ReadField` refuses the name (None).
- `KernelState.TraceState.SyscallEntry`, `KernelState.TraceState.TrapEntry`, `KernelState.TraceState.IrqEntry`, `KernelState.TraceState.SoftIrqRaise` and `KernelState.TraceState.SoftIrqEntry` require the id to be at most INT_MAX. The source reads a guint syscall id (state.c:2441) and guint64 trap, irq and soft irq ids (state.c:2475, 2522, 2617). It passes them to the `expand_*_table` functions as an `int` (state.c:318, 335, 354, 374), and `check_expand` (state.c:289-295) compares them as `int`. A larger id becomes a negative or truncated `int`, so the table is not grown. The reads of `*_names[id]` (state.c:2443, 2478, 2526, 2618) and the update `trap_states[trap].running++` (state.c:2487) then fall outside the table. That behaviour is undefined, and the model does not represent it.
- `TimeBar.ClipBuffer`, `GenEvent.Truncated` and `GenEvent.Strncat`: text is a `seq<char>` with one character per byte, as in ASCII. `CLIP_BUF` (256) and `PATH_MAX` therefore count characters, whereas `strncpy` and `strncat` count bytes (callbacks.c:164-194, genevent.c:545-570). For multi-byte UTF-8 text the C buffers hold fewer characters than the model's. For example, 200 'é' followed by "12.5" fill the 256-byte clip buffer with the 'é' alone, so no number is read, while the model reads (12, 5).
- `Sync`: `sync.h` is not part of this model, so the header fields `tot_len`, `ihl`, `doff`, `seq` and `ack_seq` are unbounded naturals. Their wrap-around at their C widths is not modelled.
- `KernelState.TraceState.RestoreInitState`: the user-space trace table and the event count `nb_event`, which `restore_init_state` also resets, are not modelled.
- `TraceContext.TracesetContext.Middle` represents each tracefile by the times of its events. The traceset reader that `Callbacks.Service` drives is the parameter `middle`.
- `TraceContext.SeekBackData.Hook` and `Shrink` model one step of `lttv_process_traceset_seek_n_backward`, but not its outer loop:
  - the loop drives an external time seeker;
  - it multiplies the offset with `ltt_time_mul`;
  - whether it terminates depends on that arithmetic.
- `DepAnalysis.HlevStep`: the C code leaves a new state's end time unset, and the model stores Zero there. The delayed-processing stack of `sstack.c` is not part of this model.
- `Sync.SyncState.MatchEvents` does not model the receive-side `pendingRecv` queue of `dev_receive`/`tcpv4_rcv`.
- `FilterParse.Filter`: `lttv_print_tree`, `lttv_filter_tree_clone` and the destroy functions are left out, because they only copy, print or free trees.
- `GenEvent.PrintParameters` is the only printer loop modelled. The other printers write the same composed names, alignment expressions and parameter lists to a FILE, and only their text is modelled.
- `WindowTraces.Trace`: the before/after chunk and request hook calls of `lttvwindowtraces_process_pending_requests` are left out, and so is the background-computation dialog. The model covers only the queue moves and flag updates.
- `Callbacks.Tab.ProcessPendingRequests` does not model step 2, which handles a non-empty `list_in` on entry. Step B empties `list_in` at the end of every call, so that case cannot arise.
- The `MEventBox3b`, `5b` and `8` clipboard receivers are not modelled separately. They have the same shape as `MEventBox1b`, which is `TimeBar.ReceiveTime`.
- `set_time_window` and `set_current_time` are not part of this model. The time managers are modelled up to the window they would set.
- `XenoThreadList.ThreadList`: the hash table is a sequence in insertion order, so GLib's iteration order and `update_index_to_pixmap` are left out.
- No lemma states how the thread hash mixes the address and the CPU. That bit-vector proof is too large for the solver. What is proved is that the hash agrees with the corrected equality (`XenoThreadList.EqualIsEquivalence`).
- Requests, events and positions are values. Where the C code compares pointers to requests or contexts, the model compares them by value or by index.

## Findings

| source | as written | input that shows it | evidently intended | confidence | as-written member | corrected member |
|---|---|---|---|---|---|---|
| trunk/lttv/ltt/tracefile.c:2488-2506 | `ltt_get_uint` reads a 1-byte field through a `gint8` cast, so it is sign-extended to 64 bits (2-byte fields go through `ltt_get_uint16` and are not) | the one-byte field `0xFF` reads as 2^64-1 | the field's unsigned value, 255 | not executed | `TraceHeader.GetUIntAsWritten`, `TraceHeader.GetUIntSignExtends` | `TraceHeader.GetUIntField` |
| trunk/lttv/ltt/tracefile.c:394-402 | the userspace-name guard looks for '-' starting two characters past the last '/', and with no '/' it starts past the end of the name | "metadata" passes the guard, with the index two past its end | a name without a '-' before its numbers is not a userspace name | not executed | `TracefileName.DashGuardRejectsAsWritten`, `TracefileName.DashGuardOvershoot` | `TracefileName.UserspaceNeedsDash` |
| trunk/lttv/ltt/tracefile.c:1286-1318 | the TSC update skips event id 29, but by then the id has already been replaced by the extended id | a header of kind 31 whose extended id is 29 keeps the previous TSC | only a header that carries a full TSC skips the update | not executed | `EventHeader.BufferTscAsWritten`, `EventHeader.ExtendedId29KeepsStaleTsc` | `EventHeader.BufferTscCarriesTimestamp` |
| trunk/lttv/ltt/tracefile.c:1004-1050 | when the time falls in a gap between blocks, `high` drops below `low`, `high - low` wraps around, and `map_block` aborts | four blocks with a gap, and the time (35,0) | the first event of the block after the gap | not executed | `TracefileSeek.SearchAsWritten`, `TracefileSeek.GapAborts` | `TracefileSeek.TimeCursor.SeekTime` |
| trunk/lttv/ltt/tracefile.c:1033-1050 | a probed block whose begin equals the time is scanned from its first event, so events at that time at the end of the block before it are skipped | three touching blocks (0,10), (10,20), (20,30) and the time (10,0) | the first event at or after the time, the last event of block 0 | not executed | `TracefileSeek.SearchAsWritten`, `TracefileSeek.TouchingBlocksSkipAsWritten` | `TracefileSeek.TimeCursor.SearchBlocks` |
| trunk/lttv/lttv/lttv/state.c:335-351 | `expand_trap_table` sets `nb_traps` before its `memcpy` and its init loop, so the copy reads past the old table and no new entry is initialised | growing an empty table to one entry, over memory holding 5 | new entries have `running` = 0 | not executed | `StateTables.TrapStatesAsWritten`, `StateTables.ExpansionLeavesGarbage` | `StateTables.Grown` |
| trunk/lttv/lttv/lttv/state.c:374-392 | `expand_soft_irq_table` initialises `running` but not `pending` in new entries | growing over memory holding 5 gives a new soft IRQ that is already pending | new entries are neither running nor pending | not executed | `StateTables.SoftIrqStatesAsWritten`, `StateTables.ExpansionLeavesGarbage` | `StateTables.Grown` |
| trunk/lttv/lttv/lttv/state.c:2590-2601 | `soft_irq_raise` writes to the table without growing it first | raising soft IRQ 3 on a table of one entry | the table grows as in `soft_irq_entry`, then the entry is marked pending | not executed | `StateTables.SoftIrqRaiseAsWritten`, `StateTables.RaiseBeyondTable` | `StateTables.SoftIrqRaise` |
| trunk/lttv/lttv/lttv/state.c:2723-2755 | `pop_function` reads the new top even when it has popped the last call | the stack [7] popped with function 7 | an empty stack whose current function is 0 | not executed | `StateStacks.PopFunctionAsWritten`, `StateStacks.PopLastFunctionOverreads` | `StateStacks.PopFunction` |
| trunk/lttv/lttv/lttv/filter.c:163-166 | the "traceset" path branch aborts the program | the path "traceset.name" | the path is refused and `assign_field` returns FALSE | not executed | `FilterField.AssignFieldAsWritten`, `FilterField.TracesetPathAborts` | `FilterField.AssignField` |
| trunk/lttv/lttv/lttv/filter.c:333-372 | the `EVENT_NAME` case falls through into `EVENT_TSC`, so its quark operator is overwritten by the uint64 operator | "event.name=" on a tracefile whose channel quark is 0 | the quark comparison, with channel 0 as a wildcard | not executed | `FilterOps.AssignOperatorAsWritten`, `FilterOps.EventNameFallThrough` | `FilterOps.AssignOperator` |
| trunk/lttv/lttv/lttv/filter.c:522-525 | a TSC value is read with `atoi` into an int and then widened to guint64 | a value from 2^31 to 2^32-1 becomes a number near 2^64 | the value as written | not executed | `FilterValue.AssignValueAsWritten`, `FilterValue.TscValueWrapsAsWritten` | `FilterValue.TscValueRoundTrip` |
| trunk/lttv/lttv/lttv/filter.c:2020-2021 | a NOT node whose child is a subtree returns TRUE | "!(...)" over any subexpression | the negation of the subexpression's result | not executed | `FilterTree.CombineAsWritten`, `FilterTree.NotOverSubtree` | `FilterTree.Combine` |
| trunk/lttv/lttv/lttv/filter.c:1439-1450 | after a closing quote, the next character is appended to the value | in `"k"&x`, the value becomes "k&" | the quote ends the value, and '&' is read as an operator | not executed | `FilterParse.QuoteStepAsWritten`, `FilterParse.ClosingQuoteSwallows` | `FilterParse.QuoteStep` |
| trunk/lttv/lttv/lttv/tracecontext.c:1156 | the position-copy guard compares the source's length with itself | a destination with no entries, and a source with one entry | the two positions hold the same number of entries | not executed | `TraceContext.CopyGuardAsWritten`, `TraceContext.CopyGuardAdmitsShortDestination` | `TraceContext.CopyPosition` |
| lttv/modules/text/depanalysis.c:841-842 | `dicho_search_state_ending_after` rejects any history of fewer than two states | a history of one state that ends after t | index 0 | not executed | `DepAnalysis.EmptyGuardAsWritten`, `DepAnalysis.GuardRejectsSingleState` | `DepAnalysis.DichoSearch` |
| trunk/attic/genevent/genevent.c:545-570 | `strncat` is bounded by `PATH_MAX - len`, with no room left for the terminator | appending a name of `PATH_MAX` characters to an empty buffer | the result, terminator included, fits in `PATH_MAX` | not executed | `GenEvent.StrncatBoundAsWritten`, `GenEvent.StrncpyTerminatedAsWritten`, `GenEvent.StrncatOverrunsAsWritten` | `GenEvent.StrncatTruncates` |
| trunk/attic/genevent/genevent.c:586-591 | the ARRAY case of the object branch falls through into STRING | any array object | only the array alignment call, as the field branch gives | not executed | `GenEvent.TypeAlignmentAsWritten`, `GenEvent.ArrayAlignmentFallThrough` | `GenEvent.TypeAlignment` |
| trunk/lttv/lttv/modules/gui/lttvwindow/lttvwindow/callbacks.c:175-181 | after the first digit scan, `ptr++` can move past the buffer | a clipboard text with no digit | scanning stops at the last slot | not executed | `TimeBar.NextAsWritten`, `TimeBar.ClipOverrunAsWritten` | `TimeBar.ScanNumber` |
| trunk/lttv/lttv/modules/gui/lttvwindow/lttvwindow/callbacks.c:3570-3571 | the start clamp uses `end.nsec - 1` | a span ending at (3,0) gives the start (3, ULONG_MAX); a start equal to the span end is kept | the last nanosecond before the span end | not executed | `TimeBar.ClampStartAsWritten`, `TimeBar.StartClampWrapsAsWritten` | `TimeBar.ClampStart` |
| trunk/lttv/lttv/modules/gui/lttvwindow/lttvwindow/callbacks.c:3648-3661 | the end clamp admits an end equal to the span start | an end of (1,4) in a span starting at (1,4) | the first nanosecond after the span start | not executed | `TimeBar.ClampEndAsWritten`, `TimeBar.EndClampKeepsSpanStartAsWritten` | `TimeBar.ClampEnd` |
| trunk/lttv/lttv/modules/gui/lttvwindow/lttvwindow/callbacks.c:3665-3671 | when the new end is earlier than the window width, `end - width` wraps the unsigned seconds, so the start lands after the end and `time_change_manager` aborts at its start-before-end assertion | the span (1,0) to (100,0), the window (50,0) to (100,0), and the end second 20 | the window starts at the trace start | not executed | `TimeBar.EndSecondsChangedAsWritten`, `TimeBar.SubAsWritten`, `TimeBar.EndBeforeWidthWrapsAsWritten` | `TimeBar.EndSecondsChanged` |
| trunk/lttv/lttv/modules/gui/lttvwindow/lttvwindow/callbacks.c:484-487 | for a short trace, `SetTraceset` takes the span's end time as the window width | the span (100,0) to (100,5) gives a window ending at (200,5) | the span's length as the width | not executed | `TimeBar.ResetWindowAsWritten`, `TimeBar.ResetOvershootsAsWritten` | `TimeBar.ResetFitsSpan` |
| trunk/lttv/lttv/modules/gui/lttvwindow/lttvwindow/callbacks.c:995-1009 | when a trace cannot be locked, the scheduler returns without unlocking the traces it already locked | two traces, the second locked elsewhere: the first stays locked, and no later call can lock both | the traces locked so far are unlocked again | not executed | `Callbacks.LockAllAsWritten`, `Callbacks.LockLeakAsWritten` | `Callbacks.LockRetry` |
| trunk/lttv/lttv/modules/gui/lttvwindow/lttvwindow/callbacks.c:1416-1446 | step 3.3.2 scans the end positions a second time instead of the start positions, and, when list_in's first request has no end position, 3.3.1 never picks one | two served requests, only the second with an end position | the lowest end position of the served requests and start position of the waiting ones | not executed | `Callbacks.EndPositionAsWritten`, `Callbacks.PositionsFromAsWritten`, `Callbacks.LowerAsWritten`, `Callbacks.EndPositionMissedAsWritten` | `Callbacks.ChunkEndPositionPresent` |
| lttng-xenomai/LinuxTraceToolkitViewer-0.8.61-xenoltt/lttv/modules/gui/xenoltt/xenoltt_threadlist.c:114-133 | `thread_list_equ_fct` returns FALSE whenever the first address is 0, so an idle-thread key is not equal to itself | removing an idle thread that was added before | keys of address 0 compare by CPU | not executed | `XenoThreadList.EqualAsWritten`, `XenoThreadList.FindEntryAsWritten`, `XenoThreadList.EqualIrreflexiveAsWritten` | `XenoThreadList.IdleFound` |
| lttng-xenomai/LinuxTraceToolkitViewer-0.8.61-xenoltt/lttv/modules/gui/xenoltt/xenoltt_threadlist.c:84-105 | the priority test is reached only when both priorities are 0, so priority never decides the order | two threads born together in one trace, with priorities 5 and 1 | the higher priority sorts first | not executed; low, the intended order is inferred from the comment | `XenoThreadList.SortAsWritten`, `XenoThreadList.SortTiesPrioritiesAsWritten` | `XenoThreadList.SortIsOrder` |
