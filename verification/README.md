# mcu-debug: a verified model of the debug adapter's stateful algorithms

The adapter sits between VS Code, GDB, a helper process, a remote proxy and a running
microcontroller. Most of it passes messages on. This project models the parts that keep
state of their own or speak a format of their own, and proves what each of them is for:
streams that arrive whole and in order, tables that agree with what they describe, keys and
references that tell different things apart.

Code that changes fields step by step is written here as classes whose methods are proved
against a specification function or a transition relation; the main results are lemmas about
those. An `await` is a boundary between two steps: whatever other events may happen there is
a parameter of the model (a schedule, a list of events), and the results hold for all of
them. GDB, the firmware, the operating system and the proxy are small machines that do
nothing but what their interface allows.

| file | contents |
|---|---|
| `Text.dfy`, `Options.dfy`, `Arithmetic.dfy`, `JsonText.dfy` | code units, decimal numbers, options, division; JSON strings and numbers as `JSON.stringify` prints them (section 7 of RFC 8259, `Number::toString` of ECMA-262) |
| `CanonicalKey.dfy`, `Handles.dfy`, `ValueHandles.dfy` | `stableStringify` as an equality test, and the handle registries built on keys |
| `References.dfy`, `VariableHandles.dfy` | packed 32-bit references (the bitwise operators of ECMA-262), and the handles of variables keyed by them |
| `RttRing.dfy`, `RttUp.dfy`, `RttDown.dfy`, `RttOverlap.dfy` | the ring buffers shared with the firmware, and both directions of transfer; polls and writes that overlap |
| `Funnel.dfy`, `ControlCommands.dfy`, `StreamTable.dfy`, `Streams.dfy` | the proxy client: framing, the table of control commands, forwarded connections as a state machine and as objects |
| `HelperFraming.dfy`, `Serializer.dfy`, `LineSplitting.dfy` | the helper's message parser, the request queue, the line splitter |
| `Ports.dfy` | first-fit search for free ports and the ownership of the sockets that hold them |
| `Intervals.dfy`, `SymbolRanges.dfy`, `Disassembly.dfy` | address ranges of the disassembler and their cache |
| `LiveWatch.dfy`, `Breakpoints.dfy` | names and routing of live-watch variables; the breakpoint tables against GDB |

## Where the code does less than it is meant to

Each of these is modelled as the code stands. A lemma, or a method where objects are
involved, shows an input on which the property fails, and another says exactly when it holds.

- `drainWriteBuffer` computes its space once per pass and never moves its own copy of
  `wrOff`, and it fills the last slot when `rdOff` is zero (`RttDown.SecondTurnOverwritesFirst`,
  `RttDown.FullRingLooksEmpty`); `RttDown.PassKeepsOrderExactlyWhenSafe` says when a pass keeps
  the bytes in order. `writeToChannel` puts new data in front of what an earlier pass left over
  (`RttDown.NewDataOvertakesOld`); `RttDown.WriteKeepsOrderExactlyWhen` says when that, and the
  pass it starts, does no harm.
- A poll calls `drainWriteBuffer` without looking at `isBusyWriting`, so its pass and that of
  a client share `wrBuffer`. In every state that safe writes lead to, whatever polls are under
  way, `RttOverlap.SendKeepsOrderExactlyWhen` says exactly when a further write is safe; polls
  alone do no harm there (`RttOverlap.SafeRunKeepsOrder`), and elsewhere exactly when what is
  left over fits (`RttOverlap.PollsKeepOrderExactlyWhen`). With the descriptor read again for each
  chunk, one slot kept free and new data put behind old, bytes are still lost
  (`RttOverlap.UnguardedPollLosesBytes`); when polls also take and respect `isBusyWriting`, the
  stream is in order after every run, without conditions (`RttOverlap.RepairedRunKeepsOrder`).
- Data that arrives while a write is under way is queued, and only the next write takes it up;
  polls never do, in this form or the repaired one (`RttOverlap.QueuedByteIsNotWritten`,
  `RttOverlap.QueueWaitsForSend`). Without a further write, what was accepted can all be
  written if and only if nothing is queued
  (`RttOverlap.PollsWriteAllExactlyWhen`, `RttOverlap.RepairedWritesAllExactlyWhen`).
- `setInstructionBreakPointsRequest` parses references inside the loop that sends the
  insertions. A reference that is not a number makes the request fail after earlier
  breakpoints were sent; GDB keeps them, and no table knows them any more
  (`Breakpoints.MalformedReferenceStrandsEarlierOnes`, `Breakpoints.RequestAgreesExactlyWhen`,
  and in terms of the request alone `Breakpoints.CompleteWhateverGdbTakes`).
- `InstrRangeCache.insert` merges into one range and at most its successor; with three
  overlaps it leaves ranges that overlap (`Intervals.InsertAgreesExactlyWhen`,
  `Intervals.InsertCanLeaveOverlaps`).
- `InstrRange.addSymbol` goes through `Number`, which rounds addresses from 2^53 + 1 on
  (`SymbolRanges.FirstUnrepresentable`); `SymbolRanges.CoversExactlyWhen` says for which lists of
  symbols the ranges are still exact.
- `findHeaderSeparator` looks for the standard separator in the whole buffer first. A frame with
  two line feeds is misread when a standard frame has arrived behind it
  (`HelperFraming.LineFeedFrameBeforeStandardOne`);
  `HelperFraming.LineFeedFrameIsTakenExactlyWhen` says when it is taken. Behind headers without
  a length, two line feeds are skipped as such unless a carriage return follows
  (`HelperFraming.LineFeedsAreSkippedExactlyWhen`).
- `LineSplitter` normalises each chunk by itself; each CRLF pair that is split between chunks
  adds one line (`LineSplitting.SplitPairAddsALine`, `LineSplitting.ChunkingMattersExactlyWhen`).
- The comment above the masks in `var-scopes.ts` promises 25 bits of thread id; the shift by
  28 leaves room for four (`References.ThreadSeventeenIsOne`,
  `References.ReferenceRoundTripExactlyWhen`). Variables of threads 1 and 17 share a handle, and so
  do static variables of the same name in the files with ids 1 and 17, which take the place of
  the thread (`VariableHandles.SeventeenIsOne`, `VariableHandles.VariablesShareHandleExactlyWhen`).
- `release` of a handle looks at the truth value of the object, so `0`, `""`, `false` and
  `null` are never released (`Handles.ZeroIsNotReleased`, `Handles.ReleaseForgetsUnlessFalsy`,
  `ValueHandles.ReleaseForgetsExactlyWhen`).
- `setStreamId` may be called for a connection that has closed while its id was under way: it
  is filed all the same, in place of a connection that waits for its id
  (`Streams.LateAnswerDisplacesWaiting`, `Streams.RemoteServer.SetStreamId`). It then stays in the
  table (`StreamTable.MisfiledStaysMisfiled`), and a third client is let in beside the one that
  waits (`StreamTable.LateAnswerLetsTwoWait`).
- Data for a closed connection goes to one that waits. It also goes to one that has its id by
  now: once the stream is started, every connection that is alone gets the same id
  (`Streams.NextClientGetsData`, `Streams.RemoteServer.DataFromServer`).
  `StreamTable.RunIsRightExactlyWhen` says of every run when table and data stay right.
- A value written through the monitor replaces what an earlier write has left for the next
  round of live updates (`LiveWatch.SecondWriteReplacesFirst`); `LiveWatch.ValueIsSentExactlyWhen`
  and `LiveWatch.WriteAndUpdate` say when a value is still sent. A reply without a changelist
  leaves the list undefined, after which no round sends anything until a write whose reply
  has one (`LiveWatch.NoChangelistSilencesRounds`, `LiveWatch.RoundsAreSilentExactlyWhen`).
- When `-exec-interrupt` fails, the breakpoint request fails with it, but its listener stays and
  carries the request out at the next stop (`Breakpoints.FailedRequestActsLater`).
  `Breakpoints.BreakpointManager.ExecuteWhileStopped` says what a request does at once, and
  `Breakpoints.BreakpointManager.TargetStops` when the tables and GDB agree after the next stop.

## Model

| member | source | states |
|---|---|---|
| `RttUp.UpChannel.TryDrainFromDevice` | packages/mcu-debug/src/adapter/rtt-builtin.ts:171-238 | a drain hands over exactly what the firmware had published when the descriptor was read, no byte twice or missing, whatever the firmware does between any two accesses; it ends with `rdOff` at the sampled `wrOff` and never hits the wrap guard |
| `RttUp.UpChannel.Poll` | packages/mcu-debug/src/adapter/rtt-builtin.ts:350-382 | over any number of polls the transport holds a prefix of the published bytes, and at least all that was published before the first poll; each byte was read once, in reads of at most 512 bytes |
| `RttUp.UpChannel.ReadMemoryBytes` | packages/mcu-debug/src/adapter/memory.ts:20-72 | reads of at most 512 bytes that add up to the length, with the callback after each, copy one stretch of the ring unchanged and release exactly it, although the firmware runs in between |
| `RttUp.UpChannel.OnChunk` | packages/mcu-debug/src/adapter/rtt-builtin.ts:173-190 | publishing `rdOff` after a chunk gives back the bytes of that chunk and no other; the new offset stays below the size |
| `RttUp.UpChannel.NextRdOff` | packages/mcu-debug/src/adapter/rtt-builtin.ts:181-185 | the wrap guard does not throw for a chunk that does not pass the end of the ring |
| `RttRing.FirmwareRunKeeps` | packages/mcu-debug/src/adapter/rtt-builtin.ts:171-238 | firmware that stores only into free space never takes back a published byte, for every sequence of its steps |
| `RttRing.FirmwareKeepsUnread` | packages/mcu-debug/src/adapter/rtt-builtin.ts:171-238 | bytes that are published and not yet released stay where they are, unchanged |
| `RttRing.ChunkIsReleased` | packages/mcu-debug/src/adapter/rtt-builtin.ts:173-190 | copying a stretch, letting the firmware run, and moving `rdOff` by the remainder of the size releases the copied bytes and keeps the ring valid |
| `RttDown.SafePassKeepsOrder` | packages/mcu-debug/src/adapter/rtt-builtin.ts:267-319 | a pass that fits keeps every accepted byte once and in order, and overwrites no unread byte, under every schedule of firmware reads, releases and arriving data |
| `RttDown.SafeWriteKeepsOrder` | packages/mcu-debug/src/adapter/rtt-builtin.ts:240-265 | a write that fits and has no older data behind it keeps every accepted byte once and in order |
| `RttDown.PassKeepsOrderExactlyWhenSafe` | packages/mcu-debug/src/adapter/rtt-builtin.ts:267-319 | from any descriptor, also when the firmware has read bytes it has not released: a pass keeps the stream for all schedules if and only if there is nothing to write, no slot is free and `rdOff` is not zero, or all fits into the free slots |
| `RttDown.SpaceIs` | packages/mcu-debug/src/adapter/rtt-builtin.ts:276-284 | the space computed from the descriptor is the number of free slots, and one more when `rdOff` is zero |
| `RttDown.FullRingIsLeftAlone` | packages/mcu-debug/src/adapter/rtt-builtin.ts:276-289 | a pass that finds no free slot and an `rdOff` other than zero changes neither the ring nor the buffer |
| `RttDown.TurnFillsFreeSlots` | packages/mcu-debug/src/adapter/rtt-builtin.ts:276-318 | any other turn writes as much of the buffer as there are free slots, and one byte more when `rdOff` is zero, and cuts it from the buffer |
| `RttDown.WriteKeepsOrderExactlyWhen` | packages/mcu-debug/src/adapter/rtt-builtin.ts:240-265 | a write with no other pass under way keeps the stream for all schedules if and only if merging in front gives the same bytes as behind, and all of it fits into the free slots, or is one byte for a full ring whose `rdOff` is not zero |
| `RttOverlap.SafeRunKeepsOrder` | packages/mcu-debug/src/adapter/rtt-builtin.ts:240-319 | over every run of safe writes, with polls starting and going on at any await, also beside a write: the firmware reads a prefix of the accepted bytes, and ring, buffer and queue hold the rest in order |
| `RttOverlap.SendKeepsOrderExactlyWhen` | packages/mcu-debug/src/adapter/rtt-builtin.ts:240-319 | in every state of such a run a call of `writeToChannel` leaves the stream in order, whatever polls, answers and firmware steps follow, if and only if it is queued, brings nothing new, or finds no poll with a chunk in flight, merges without changing the bytes, and fits |
| `RttOverlap.PollsKeepOrderExactlyWhen` | packages/mcu-debug/src/adapter/rtt-builtin.ts:267-319 | from every ordered state with no pass under way: the stream stays in order under all further polls and firmware steps if and only if the buffer fits the free slots, or is one byte for a full ring whose `rdOff` is not zero |
| `RttOverlap.QueueWaitsForSend` | packages/mcu-debug/src/adapter/rtt-builtin.ts:250-255 | no run without a further write takes up queued data, in any form of the code |
| `RttOverlap.QueuedByteIsNotWritten` | packages/mcu-debug/src/adapter/rtt-builtin.ts:250-255 | a byte that is sent while the pass of the one before waits for the descriptor stays in the queue in every run without a further write |
| `RttOverlap.PollsWriteAllExactlyWhen` | packages/mcu-debug/src/adapter/rtt-builtin.ts:240-319 | from every state of a safe run with no pass under way: some run of polls and firmware steps writes all that was accepted if and only if nothing is queued |
| `RttOverlap.RepairedWritesAllExactlyWhen` | packages/mcu-debug/src/adapter/rtt-builtin.ts:240-319 | the same for the repaired form, where a ring of one slot has no room |
| `RttOverlap.WriteIsARun` | packages/mcu-debug/src/adapter/rtt-builtin.ts:240-319 | the write as a whole, for every schedule, is a run of the two passes in which no poll takes part |
| `RttOverlap.TurnEnds` | packages/mcu-debug/src/adapter/rtt-builtin.ts:294-317 | whatever a chunk in flight carries, at most three answers later `wrOff` is behind it, its length is cut from the buffer, and its pass goes on as the descriptor it holds says; nothing else but the ring's bytes has changed |
| `RttOverlap.RepairedRunKeepsOrder` | packages/mcu-debug/src/adapter/rtt-builtin.ts:240-382 | with four repairs (descriptor read before each chunk, a slot kept free, new data behind old, polls guarded) the stream is in order after every run, without any condition |
| `RttOverlap.UnguardedPollLosesBytes` | packages/mcu-debug/src/adapter/rtt-builtin.ts:250-253 | with the first three repairs only: a poll and a write that overlap lose two of five accepted bytes |
| `RttDown.SecondTurnOverwritesFirst` | packages/mcu-debug/src/adapter/rtt-builtin.ts:276-318 | five bytes for an empty ring of four slots: the second chunk lands on the first |
| `RttDown.FullRingLooksEmpty` | packages/mcu-debug/src/adapter/rtt-builtin.ts:278-281 | four bytes for an empty ring of four slots with `rdOff` zero: all four are lost to the firmware |
| `RttDown.NewDataOvertakesOld` | packages/mcu-debug/src/adapter/rtt-builtin.ts:255-255 | a byte left over from an earlier pass is overtaken by the next write |
| `RttDown.DownChannel.DrainWriteBuffer` | packages/mcu-debug/src/adapter/rtt-builtin.ts:267-319 | the loop computes the pass that the lemmas are about, from the descriptor as read after waiting; it leaves a full ring whose `rdOff` is not zero alone |
| `RttDown.DownChannel.WriteTurn` | packages/mcu-debug/src/adapter/rtt-builtin.ts:294-317 | one turn of the loop: one stretch or two around the end, then the new `wrOff` |
| `RttDown.DownChannel.WriteToChannel` | packages/mcu-debug/src/adapter/rtt-builtin.ts:240-265 | refuses before the control block is found, queues while a write is under way, and otherwise merges and drains; accepted bytes are recorded once |
| `CanonicalKey.CanonicalKeyDecidesEquality` | packages/shared/src/handles.ts:96-123 | two JSON values have the same key if and only if they are structurally equal, whatever the order of their properties |
| `CanonicalKey.NormalDecidesEquality` | packages/shared/src/handles.ts:116-120 | values are structurally equal if and only if sorting properties everywhere makes them identical |
| `CanonicalKey.StringifyPrintsNormal` | packages/shared/src/handles.ts:96-123 | the key is the plain printing of the value with sorted properties |
| `CanonicalKey.PrintSelfDelimiting` | packages/shared/src/handles.ts:102-122 | the printed form of a value followed by other text can be read in one way only |
| `CanonicalKey.SortSorts` | packages/shared/src/handles.ts:117-117 | sorting the property names orders them and keeps exactly the properties |
| `CanonicalKey.SortedUnique` | packages/shared/src/handles.ts:117-117 | the same properties have one sorted list only |
| `CanonicalKey.LessExactlyWhen` | packages/shared/src/handles.ts:117-117 | property names are ordered by the first code unit that differs, a prefix first |
| `CanonicalKey.KeysOfTwo` | packages/shared/src/handles.ts:111-122 | the text of an array and of an object with two elements, the properties given in the wrong order |
| `JsonText.QuoteSelfDelimiting` | packages/shared/src/handles.ts:103-105 | quoted strings, with escapes and lone surrogates, can be told apart and from what follows |
| `JsonText.NumTextInjective` | packages/shared/src/handles.ts:103-105 | different finite numbers print differently, across all four layouts |
| `JsonText.ReadMagnitudeRoundTrip` | packages/shared/src/handles.ts:103-105 | reading a printed number gives back its digits and decimal point |
| `JsonText.LargeLayouts` | packages/shared/src/handles.ts:103-105 | the last power of ten that is printed with all its zeros, and the next |
| `JsonText.SmallLayouts` | packages/shared/src/handles.ts:103-105 | the last one printed behind the point, and the next |
| `JsonText.PointLayouts` | packages/shared/src/handles.ts:103-105 | digits on both sides of the point, and before an exponent |
| `JsonText.ShortEscapesAre` | packages/shared/src/handles.ts:103-105 | how a tab, a quote and a surrogate pair are printed |
| `JsonText.UnicodeEscapesAre` | packages/shared/src/handles.ts:103-105 | how a control character and a surrogate by itself are printed |
| `JsonText.CopiedExactlyWhen` | packages/shared/src/handles.ts:103-105 | a code unit by itself is copied if and only if it is no control character, quote, backslash or surrogate |
| `ValueHandles.EqualValuesShareHandles` | packages/shared/src/handles.ts:37-49 | over every run of additions and releases, two JSON values get the same handle if and only if they are structurally equal, unless the handle was released between |
| `ValueHandles.HandlesKeepTheirValue` | packages/shared/src/handles.ts:37-78 | without a clear no handle ever returns for a different value, even after a release |
| `ValueHandles.ReleaseForgetsExactlyWhen` | packages/shared/src/handles.ts:70-78 | a release forgets the value if and only if it is not null, false, zero or empty text |
| `Handles.RunKeepsInv` | packages/shared/src/handles.ts:28-78 | over every run of add, release and clear the two maps are inverse to each other and handles count up |
| `Handles.HandlesAreNotReused` | packages/shared/src/handles.ts:37-49 | between two clears a handle belongs to one key, even when it was released in between |
| `Handles.SameHandleExactlyWhen` | packages/shared/src/handles.ts:37-78 | over every run two additions give the same handle if and only if the keys agree, unless the handle was released between |
| `Handles.ObjectStays` | packages/shared/src/handles.ts:37-49 | over every run a handle keeps the object that it was made for, also when an equal one is added, until it is released or all are cleared |
| `Handles.ReleaseForgetsUnlessFalsy` | packages/shared/src/handles.ts:70-78 | after a release the key gets a new handle if and only if the object counts as true |
| `Handles.ZeroIsNotReleased` | packages/shared/src/handles.ts:157-164 | releasing the handle of the number 0 does nothing |
| `Handles.ToValueKeyInjective` | packages/mcu-debug/src/adapter/variables.ts:23-25 | the key text determines parent, name and frame reference for all names, also names with bars in them |
| `VariableHandles.VariablesShareHandleExactlyWhen` | packages/mcu-debug/src/adapter/variables.ts:227-233 | over every run, two created variables get the same handle, unless it was released between, if and only if parent and name agree, thread or file ids agree modulo 16, frames modulo 2^24 and scopes modulo 8 |
| `VariableHandles.SameKeyExactlyWhen` | packages/mcu-debug/src/adapter/variables.ts:15-26 | the key with its packed and masked frame reference tells exactly those variables apart |
| `VariableHandles.SeventeenIsOne` | packages/mcu-debug/src/adapter/variables.ts:223-231 | variables of threads, or files, 1 and 17 have the same key |
| `Handles.HandleRegistry.AddObject` | packages/shared/src/handles.ts:37-49 | makes the step of the machine and keeps its invariant; the object found under the handle has the same key |
| `Handles.HandleRegistry.GetHandle` | packages/shared/src/handles.ts:51-55 | finds a handle if and only if an equal object is registered, and it is that object's |
| `Handles.HandleRegistry.GetObject` | packages/shared/src/handles.ts:57-59 | finds the object of a live handle, and its key leads back to that handle |
| `Handles.HandleRegistry.GetObjectByKey` | packages/shared/src/handles.ts:61-68 | finds an object with the same key if and only if there is one |
| `Handles.HandleRegistry.ReleaseHandle` | packages/shared/src/handles.ts:157-164 | makes the step of the machine; succeeds if and only if the handle is known and its object counts as true |
| `Handles.HandleRegistry.ClearAll` | packages/shared/src/handles.ts:125-129 | leaves an empty registry whose handles start again |
| `References.DecodeOfEncode` | packages/mcu-debug/src/adapter/var-scopes.ts:37-43 | decoding gives thread mod 16, frame mod 2^24 and scope mod 16, for all numbers |
| `References.ReferenceRoundTripExactlyWhen` | packages/mcu-debug/src/adapter/var-scopes.ts:37-43 | a reference comes back if and only if thread is below 16, frame below 2^24 and scope below 16 |
| `References.ThreadSeventeenIsOne` | packages/mcu-debug/src/adapter/var-scopes.ts:37-43 | thread 17 comes back as thread 1 |
| `References.DecodeOfVarAndScope` | packages/mcu-debug/src/adapter/var-scopes.ts:53-59 | decoding a variable reference gives thread mod 16, frame mod 2^24 and scope mod 8 plus 8; a scope reference the same without the 8 |
| `References.VarAndScopeReferencesDiffer` | packages/mcu-debug/src/adapter/var-scopes.ts:53-59 | a variable reference and a scope reference are never equal, and bit 3 tells which is which |
| `References.HandleRoundTripExactlyWhen` | packages/mcu-debug/src/adapter/variables.ts:231-231 | the handle inside a variable reference comes back if and only if it is below 2^28 |
| `References.ScopeOfHandle` | packages/mcu-debug/src/adapter/variables.ts:231-231 | the low four bits of a variable's handle are its scope |
| `References.ConsoleRoundTripExactlyWhen` | packages/mcu-debug/src/adapter/variables.ts:1984-1995 | a console reference finds its index again if and only if it is below 2^28 |
| `References.ConsoleReferencesAreMarked` | packages/mcu-debug/src/adapter/variables.ts:1984-1988 | the low four bits of a console reference are 6, so that it differs from every variable's handle of another scope |
| `Funnel.EncodeIsFirstFrame` | packages/mcu-debug/src/adapter/proxy-client.ts:326-335 | an encoded frame is read back as that frame, whatever follows it |
| `Funnel.FirstFrameEncodes` | packages/mcu-debug/src/adapter/proxy-client.ts:497-508 | what is read as a frame is one that can be written, and the buffer is its encoding and the rest |
| `Funnel.FrameLayout` | packages/mcu-debug/src/adapter/proxy-client.ts:331-334 | on the wire: the stream id, the length in four bytes with the lowest first, the payload |
| `Funnel.FrameIsThereExactlyWhen` | packages/mcu-debug/src/adapter/proxy-client.ts:494-503 | a frame is taken if and only if its header has arrived and as many bytes as that says |
| `Funnel.DeliveryIsPrefix` | packages/mcu-debug/src/adapter/proxy-client.ts:486-515 | for every list of frames, every cutting into data events, and data arriving during every await: the frames handled are the first of those sent, and the buffer is the part received and not handled |
| `Funnel.DeliveryIsComplete` | packages/mcu-debug/src/adapter/proxy-client.ts:486-515 | when everything has arrived and the busy flag is clear, all frames were handled |
| `Funnel.ResumesDrain` | packages/mcu-debug/src/adapter/proxy-client.ts:494-514 | no complete frame is stranded: one resumption per complete frame handles them all and clears the busy flag |
| `Funnel.ProxySocket.SendCommandBytes` | packages/mcu-debug/src/adapter/proxy-client.ts:326-335 | writes the encoding of the frame or nothing; throws if and only if connected and the header cannot be written |
| `Funnel.ProxyReader.HandleProxyData` | packages/mcu-debug/src/adapter/proxy-client.ts:486-515 | a data event makes the step of the machine and keeps the stream invariant |
| `Funnel.ProxyReader.AfterAwait` | packages/mcu-debug/src/adapter/proxy-client.ts:505-513 | so does going on after the await |
| `ControlCommands.EachCommandSettlesAtMostOnce` | packages/mcu-debug/src/adapter/proxy-client.ts:258-324 | in every reachable state a command is pending and unsettled, or is out of the table, has no timer and exactly one settlement, which stands for the rest of the run |
| `ControlCommands.StepKeepsInv` | packages/mcu-debug/src/adapter/proxy-client.ts:258-324 | sends, responses, stray responses, timeouts and socket close keep the table equal to the unsettled commands |
| `ControlCommands.SettledIsFinal` | packages/mcu-debug/src/adapter/proxy-client.ts:556-568 | a response or timeout for a settled command changes nothing |
| `ControlCommands.ClosedStaysEmpty` | packages/mcu-debug/src/adapter/proxy-client.ts:318-324 | after a close no command is pending and no timer is alive, for good |
| `ControlCommands.OutcomeTellsCause` | packages/mcu-debug/src/adapter/proxy-client.ts:258-324 | over every run each settlement has its event: resolved by a response that reports success, rejected by one that does not, timed out by its own timer, failed with the socket, the write or for want of a connection |
| `ControlCommands.SettlesExactlyWhen` | packages/mcu-debug/src/adapter/proxy-client.ts:258-324 | each event adds exactly the settlements that it explains |
| `ControlCommands.TimerRunsExactlyWhen` | packages/mcu-debug/src/adapter/proxy-client.ts:294-303 | over every run a timer runs for exactly the pending commands that were sent with a positive timeout |
| `ControlCommands.ProxyCommands.SendControlCommand` | packages/mcu-debug/src/adapter/proxy-client.ts:258-316 | makes the machine's step for a new command, also when there is no socket or the write throws: it is pending if and only if both work, and has a timer if and only if the timeout is positive as well |
| `ControlCommands.ProxyCommands.HandleResponse` | packages/mcu-debug/src/adapter/proxy-client.ts:556-568 | settles the command it names, if that is pending, and no other: resolved if the response reports success, rejected if not |
| `ControlCommands.ProxyCommands.TimerCallback` | packages/mcu-debug/src/adapter/proxy-client.ts:294-303 | makes the step of a timeout: its command is settled and leaves the table |
| `ControlCommands.ProxyCommands.OnClose` | packages/mcu-debug/src/adapter/proxy-client.ts:400-405 | rejects each pending command once and leaves the table empty |
| `Streams.RemoteServer.SetStreamId` | packages/mcu-debug/src/adapter/proxy-client.ts:853-881 | for open and for closed connections: table and flows stay right if and only if the connection has that id already; or is open, has none, and the id is free; or is closed and had an id, or the id is in use |
| `Streams.LateAnswerDisplacesWaiting` | packages/mcu-debug/src/adapter/proxy-client.ts:655-668 | a client closes before its id arrives and another connects: the closed connection is filed, the waiting one is not |
| `Streams.NextClientGetsData` | packages/mcu-debug/src/adapter/proxy-client.ts:739-743 | a client closes while data for it is under way: the next client, whether it gets the same id or waits for one, is given that data |
| `StreamTable.RunIsRightExactlyWhen` | packages/mcu-debug/src/adapter/proxy-client.ts:701-813 | over every run of connects, closes, answers and data: all states have the table inverse to the ids and each open connection given just what was sent for it, if and only if every answer is in time with a new id, or without effect, and data is sent for the connection that has its id, or for the one that waits when there is none, or for one that has closed when there is neither |
| `StreamTable.StepIsRightExactlyWhen` | packages/mcu-debug/src/adapter/proxy-client.ts:701-881 | the same for each event, in every right state |
| `StreamTable.DataIsGivenToReceiver` | packages/mcu-debug/src/adapter/proxy-client.ts:793-800 | data is given to the open connection with its id, or else to the one that waits, and to no other |
| `StreamTable.OwnerGetsData` | packages/mcu-debug/src/adapter/proxy-client.ts:793-800 | an open connection is given the data sent for it under its id, also while another one waits, and the state stays right |
| `StreamTable.ClientIsTurnedAwayExactlyWhen` | packages/mcu-debug/src/adapter/proxy-client.ts:722-752 | in a right state a client is turned away if and only if an open connection waits for its id; otherwise it gets the id of the stream if it is alone and the stream is started, and waits if not |
| `StreamTable.MisfiledStaysMisfiled` | packages/mcu-debug/src/adapter/proxy-client.ts:802-813 | a closed connection that is in the table stays there, and the table stays wrong, whatever follows except another clean-up of that connection |
| `StreamTable.LateAnswerLetsTwoWait` | packages/mcu-debug/src/adapter/proxy-client.ts:722-732 | after a late answer a third client is let in: two open connections wait for their ids |
| `StreamTable.AtMostOneWaits` | packages/mcu-debug/src/adapter/proxy-client.ts:722-732 | as long as the state is right, no two open connections have the same id; in particular at most one waits |
| `Streams.RemoteServer.ResetStreamId` | packages/mcu-debug/src/adapter/proxy-client.ts:802-813 | refiles the connection under a free id and refuses any other |
| `Streams.RemoteServer.Connect` | packages/mcu-debug/src/adapter/proxy-client.ts:722-752 | turns a client away if and only if another connection waits for its id; otherwise files it, under the id of the stream at once when it is alone and the stream is started, also when an earlier connection had that id, and keeps the table inverse to the ids |
| `Streams.RemoteServer.DataFromServer` | packages/mcu-debug/src/adapter/proxy-client.ts:793-800 | a connection is given the data if and only if it has the id, or waits and no other has it; table and flows stay right if and only if there is no data or just the connection that it was sent for is given it, as is always so when that one is open and has the id |
| `Streams.RemoteServer.CleanupSocket` | packages/mcu-debug/src/adapter/proxy-client.ts:701-708 | removes exactly that connection from list and table |
| `Streams.RemoteStream.InitStreamId` | packages/mcu-debug/src/adapter/proxy-client.ts:867-881 | flushing on assignment forwards the waiting bytes of both directions once and in order |
| `Streams.RemoteStream.DataFromClient` | packages/mcu-debug/src/adapter/proxy-client.ts:905-915 | the payloads sent, or the buffer, are always the client's input in order |
| `Streams.RemoteStream.DataFromServer` | packages/mcu-debug/src/adapter/proxy-client.ts:883-903 | what was written to the client, or waits in the buffer, is always what the server sent, in order |
| `Streams.AtMostOneUnassigned` | packages/mcu-debug/src/adapter/proxy-client.ts:722-732 | no two connections of a valid server have the same id; in particular at most one has none |
| `HelperFraming.BodiesAreTakenInOrder` | packages/mcu-debug/src/adapter/helper.ts:182-257 | for all bodies, chunkings and batches: the bodies dispatched are the first of those sent, the buffer is the rest, at rest no complete frame waits, and in the end all are dispatched |
| `HelperFraming.ImmediatesBringRest` | packages/mcu-debug/src/adapter/helper.ts:201-257 | the batched parser comes to rest after finitely many callbacks |
| `HelperFraming.EachEventHandlesAtMostFifty` | packages/mcu-debug/src/adapter/helper.ts:201-257 | one event handles at most fifty messages, and asks to go on later if and only if it has handled fifty and there is more to read |
| `HelperFraming.FrameIsTaken` | packages/mcu-debug/src/adapter/helper.ts:203-248 | a complete frame is taken out whole, whatever follows |
| `HelperFraming.HeaderLinesAreRead` | packages/mcu-debug/src/adapter/helper.ts:203-295 | a frame with further header lines around the one with the length is taken out whole; the first line that gives a length decides |
| `HelperFraming.LengthInAnyCase` | packages/mcu-debug/src/adapter/helper.ts:279-295 | the header's name may be written in any case |
| `HelperFraming.LengthNeedsName` | packages/mcu-debug/src/adapter/helper.ts:279-295 | a line that gives a length begins with the header's name |
| `HelperFraming.ParseIntOfSigned` | packages/mcu-debug/src/adapter/helper.ts:279-295 | a sign before the digits counts |
| `HelperFraming.HeaderWithoutLengthIsSkipped` | packages/mcu-debug/src/adapter/helper.ts:213-219 | headers without a length are skipped together with their separator |
| `HelperFraming.LineFeedsAreSkippedExactlyWhen` | packages/mcu-debug/src/adapter/helper.ts:213-219 | headers without a length and two line feeds behind them are skipped, and nothing else, if and only if no carriage return follows |
| `HelperFraming.LineFeedFrameIsTakenExactlyWhen` | packages/mcu-debug/src/adapter/helper.ts:264-273 | a frame with two line feeds for the separator is taken out whole if and only if no standard separator has arrived behind its header |
| `HelperFraming.LineFeedFrameBeforeStandardOne` | packages/mcu-debug/src/adapter/helper.ts:264-273 | such a frame is misread whenever a standard one has arrived behind it |
| `HelperFraming.PartialFrameWaits` | packages/mcu-debug/src/adapter/helper.ts:264-273 | no proper prefix of a frame is mistaken for a frame or a separator |
| `HelperFraming.ContentLengthRoundTrip` | packages/mcu-debug/src/adapter/helper.ts:279-295 | the decimal length in a header is read back |
| `HelperFraming.FindIsFirst` | packages/mcu-debug/src/adapter/helper.ts:264-273 | the search gives the first occurrence, and one if there is one |
| `HelperFraming.DebugHelper.SendRequest` | packages/mcu-debug/src/adapter/helper.ts:427-430 | writes one frame |
| `HelperFraming.DebugHelper.HandleHelperStdout` | packages/mcu-debug/src/adapter/helper.ts:182-195 | makes the step of the parser for a chunk of output |
| `HelperFraming.DebugHelper.OnImmediate` | packages/mcu-debug/src/adapter/helper.ts:250-257 | makes the step of the callback between two batches |
| `HelperFraming.DebugHelper.ProcessMessages` | packages/mcu-debug/src/adapter/helper.ts:201-257 | the loop with its batch limit computes the recursive parser |
| `Serializer.OneAtATimeInOrder` | packages/mcu-debug/src/adapter/seq-debug-session.ts:26-91 | over every run: at most one queued request in flight, dispatch order is a subsequence of arrival order, and each request is dispatched once, cancelled once or still queued |
| `Serializer.ContinueCancelsForGood` | packages/mcu-debug/src/adapter/seq-debug-session.ts:33-48 | in every run: what is queued when a continue-like request arrives is cancelled, in the order of the queue, and never queued or dispatched afterwards |
| `Serializer.OnlyContinueCancels` | packages/mcu-debug/src/adapter/seq-debug-session.ts:33-48 | no other event cancels anything |
| `Serializer.ArrivalDoes` | packages/mcu-debug/src/adapter/seq-debug-session.ts:26-91 | an arriving request cancels exactly the queue if it is continue-like and nothing otherwise; it is dispatched when nothing is in flight, and waits behind what is left of the queue if not |
| `Serializer.ResponseReleases` | packages/mcu-debug/src/adapter/seq-debug-session.ts:53-90 | the response to the request in flight completes it, and the next in the queue is dispatched, unless the session is exiting |
| `Serializer.OtherResponseChangesNothing` | packages/mcu-debug/src/adapter/seq-debug-session.ts:67-70 | no other response releases it |
| `Serializer.ResponsesEmptyQueue` | packages/mcu-debug/src/adapter/seq-debug-session.ts:60-91 | one response for each request in flight has the whole queue dispatched and completed in its order |
| `Serializer.IdleMeansEmpty` | packages/mcu-debug/src/adapter/seq-debug-session.ts:60-91 | a session that is not processing has nothing queued |
| `Serializer.LateResponseChangesNothing` | packages/mcu-debug/src/adapter/seq-debug-session.ts:53-77 | a response to a cancelled or completed request does not release the one in flight |
| `Serializer.ExitingStopsTheQueue` | packages/mcu-debug/src/adapter/seq-debug-session.ts:60-91 | after an exit-like request nothing more is dispatched from the queue |
| `Serializer.NothingAfterExit` | packages/mcu-debug/src/adapter/seq-debug-session.ts:27-31 | in every run nothing is dispatched from the queue after an exit-like request |
| `Serializer.CancellingKeepsInv` | packages/mcu-debug/src/adapter/seq-debug-session.ts:33-46 | cancelling the queue keeps the session's invariant and leaves the one in flight alone |
| `Serializer.SeqDebugSession.DispatchRequest` | packages/mcu-debug/src/adapter/seq-debug-session.ts:26-50 | an arriving request makes the step of the machine; if it is continue-like each queued request is answered with "cancelled", in order, and nothing but the new request may be queued afterwards; any other request cancels nothing |
| `Serializer.SeqDebugSession.AfterAwait` | packages/mcu-debug/src/adapter/seq-debug-session.ts:60-91 | so does the loop going on after a response |
| `LineSplitting.ChunkingMattersExactlyWhen` | packages/shared/src/line-splitter.ts:13-50 | the final lines are those of the whole text if and only if no CRLF pair is split; each split pair adds one line |
| `LineSplitting.SplitPairAddsALine` | packages/shared/src/line-splitter.ts:15-15 | "a" and "b" with the pair between them split come out as three lines |
| `LineSplitting.LinesRebuild` | packages/shared/src/line-splitter.ts:18-33 | lines, separators and buffer are the normalised text again, and no line has a break in it |
| `LineSplitting.LinesOfConcat` | packages/shared/src/line-splitter.ts:13-42 | splitting may stop anywhere and go on with what was left |
| `LineSplitting.NormalizeJoins` | packages/shared/src/line-splitter.ts:15-15 | normalising chunks is normalising the whole when no pair is split |
| `LineSplitting.LineSplitter.Write` | packages/shared/src/line-splitter.ts:13-42 | between calls the buffer holds no break, and it holds what the lines called back do not cover; the flush timer runs if and only if the buffer is not empty and a flush time is set |
| `LineSplitting.LineSplitter.TimerFires` | packages/shared/src/line-splitter.ts:34-41 | shows the unfinished line and leaves it in the buffer, so no final line changes |
| `LineSplitting.LineSplitter.End` | packages/shared/src/line-splitter.ts:44-50 | all lines since the last end are those of the normalised chunks |
| `Ports.TcpPortScanner.FindAvailablePortRange` | packages/shared/src/find-free-ports.ts:312-341 | one upward pass that tries each port once, from the start asked for (2500 for zero, the nearest port if there is no such port) up to 32767, or to 65535 when it starts above that, finds the lowest window (or the lowest ports), and fails exactly when there is none; the start itself when one port is wanted and it can be claimed; a failure leaves no socket open |
| `Ports.PreferredPortIsTaken` | packages/shared/src/find-free-ports.ts:317-331 | no port below the start asked for is found, none above 32767 if it is below 32768, and a start that can be claimed is the first of those found |
| `Ports.FirstFitIsUnique` | packages/shared/src/find-free-ports.ts:304-341 | first fit names one list of ports, and excludes failure |
| `Ports.FirstFitIsClaimable` | packages/shared/src/find-free-ports.ts:304-341 | the ports returned are claimable, in range, increasing and as many as asked for |
| `Ports.TcpPortScanner.ClaimPort` | packages/shared/src/find-free-ports.ts:170-184 | holds the port on all hosts if nobody holds it on any of them and it is not to be avoided, and otherwise on none |
| `Ports.TcpPortScanner.FindFreePorts` | packages/shared/src/find-free-ports.ts:296-301 | the ports are first fit from the start given, 2500 if none is given; none of them was to be avoided or held by anybody; the open sockets stay exactly those of the held locks, no port is handed out twice, and an error changes nothing |
| `Ports.TcpPortScanner.ReleaseHeldPorts` | packages/shared/src/find-free-ports.ts:235-238 | leaves no lock and no socket |
| `Ports.TcpPortScanner.UnlockPortsIfFree` | packages/shared/src/find-free-ports.ts:245-256 | gives up exactly the locks all of whose ports are named, in place, keeping the others in order |
| `Ports.UnnamedKeeps` | packages/shared/src/find-free-ports.ts:245-256 | a lock stays if and only if it holds a port that is not named |
| `Ports.TcpPortScanner.ReleaseLock` | packages/shared/src/find-free-ports.ts:189-206 | releasing twice closes sockets once |
| `Intervals.AddRangeKeepsNormalForm` | packages/mcu-debug/src/adapter/disassebly-gdb.ts:128-140 | the cache stays sorted and disjoint and covers exactly the old addresses and the new range |
| `Intervals.AddRangeReplaces` | packages/mcu-debug/src/adapter/disassebly-gdb.ts:128-140 | the ranges that meet the new one are neighbours and give way to their hull |
| `Intervals.OverlapsExactlyWhen` | packages/mcu-debug/src/adapter/disassebly-gdb.ts:73-75 | ranges overlap if and only if they share an address; those that only touch do not |
| `Intervals.InsertAgreesExactlyWhen` | packages/mcu-debug/src/adapter/disassebly-gdb.ts:142-176 | `insert` does what `addRange` does, and leaves the cache sorted and disjoint, if and only if the new range meets at most two cached ones |
| `Intervals.InsertCanLeaveOverlaps` | packages/mcu-debug/src/adapter/disassebly-gdb.ts:142-176 | three ranges met: the cache is left with two that overlap |
| `SymbolRanges.RangesAreApart` | packages/mcu-debug/src/adapter/disassebly-gdb.ts:619-646 | symbols sorted by address, with representable ends, become ranges that do not touch and cover exactly the symbols |
| `SymbolRanges.ApartIsUnique` | packages/mcu-debug/src/adapter/disassebly-gdb.ts:619-646 | the covered addresses determine the ranges |
| `SymbolRanges.CoversExactlyWhen` | packages/mcu-debug/src/adapter/disassebly-gdb.ts:619-646 | for every sorted list of symbols, with any ends and lengths: the ranges cover exactly the symbols if and only if rounding does no harm at any seam between symbols and the last address is representable |
| `SymbolRanges.OneSymbolIsExactWhen` | packages/mcu-debug/src/adapter/disassebly-gdb.ts:47-52 | one symbol, also of no length, is covered exactly if and only if its last address survives the conversion to a number |
| `SymbolRanges.RoundingIsMonotone` | packages/mcu-debug/src/adapter/disassebly-gdb.ts:47-52 | of two addresses the later one is not rounded below the earlier one |
| `SymbolRanges.RoundingStaysBelow` | packages/mcu-debug/src/adapter/disassebly-gdb.ts:47-52 | rounding an address never passes a representable one |
| `SymbolRanges.NumberIsNearest` | packages/mcu-debug/src/adapter/disassebly-gdb.ts:47-52 | the number is nearest to the address of all doubles, and of two that are equally near the even one |
| `SymbolRanges.SmallIsRepresentable` | packages/mcu-debug/src/adapter/disassebly-gdb.ts:47-52 | every address up to 2^53 survives the conversion to a number |
| `SymbolRanges.FirstUnrepresentable` | packages/mcu-debug/src/adapter/disassebly-gdb.ts:47-52 | the next one does not |
| `Disassembly.InstrRangeCache.AddRange` | packages/mcu-debug/src/adapter/disassebly-gdb.ts:128-140 | the cache of range objects ends up as the interval function says |
| `Disassembly.InstrRangeCache.Insert` | packages/mcu-debug/src/adapter/disassebly-gdb.ts:142-176 | widening cached objects in place computes the interval function; the cache stays disjoint when at most two ranges are met |
| `Disassembly.InstrRangeCache.GetOverlappingRanges` | packages/mcu-debug/src/adapter/disassebly-gdb.ts:105-118 | gives exactly the neighbours that overlap or touch the range |
| `Disassembly.FindSymbolsInRange` | packages/mcu-debug/src/adapter/disassebly-gdb.ts:619-646 | the loop over range objects computes the interval list; nothing exactly for no symbols |
| `Disassembly.InstrRange.Merge` | packages/mcu-debug/src/adapter/disassebly-gdb.ts:83-92 | a new range that is the hull of both |
| `SymbolRanges.HighWithExactlyWhen` | packages/mcu-debug/src/adapter/disassebly-gdb.ts:47-52 | `addSymbol` leaves the later of the two ends if and only if that one is representable as a number, and its rounding otherwise |
| `LiveWatch.CreateGdbName` | packages/mcu-debug/src/adapter/variables.ts:984-994 | ends within one try more than there are names, with the first candidate that is not taken, under the container's prefix |
| `LiveWatch.CandidatesAreDistinct` | packages/mcu-debug/src/adapter/variables.ts:984-994 | different counters make different names |
| `LiveWatch.CandidatesAre` | packages/mcu-debug/src/adapter/variables.ts:984-994 | the name asked for comes first, then the same with "-1", and so on |
| `LiveWatch.PrefixInjective` | packages/mcu-debug/src/adapter/live-watch-monitor.ts:249-255 | different clients have different prefixes |
| `LiveWatch.NameLeadsToPrefix` | packages/mcu-debug/src/adapter/live-watch-monitor.ts:283-289 | every name made under a prefix is looked up under that prefix, dashes in the rest or not |
| `LiveWatch.SentToItsCreator` | packages/mcu-debug/src/adapter/live-watch-monitor.ts:283-289 | the last update of a variable is sent to the client whose container made its name and to no other |
| `LiveWatch.EventsAre` | packages/mcu-debug/src/adapter/live-watch-monitor.ts:291-300 | a round's events are exactly the non-empty collections of the registered clients |
| `LiveWatch.LiveMonitor.RegisterClient` | packages/mcu-debug/src/adapter/live-watch-monitor.ts:242-273 | session id and prefix are new, and the two tables number the clients alike |
| `LiveWatch.LiveMonitor.UpdateVariables` | packages/mcu-debug/src/adapter/live-watch-monitor.ts:275-310 | a round sends written values and GDB's changes, none when its command fails, and leaves nothing behind; each client is sent the last value that GDB reports for each of its variables; a reply without a changelist, or an undefined list of written values, sends nothing and changes nothing |
| `LiveWatch.ReportedBeatsWritten` | packages/mcu-debug/src/adapter/live-watch-monitor.ts:280-288 | what GDB reports for a variable is sent, also when a written value waits; a written value is sent when GDB reports none |
| `LiveWatch.LiveMonitor.WriteViaMonitor` | packages/mcu-debug/src/adapter/live-watch-monitor.ts:380-404 | what GDB reads back replaces what earlier writes have left for the next round, a failed command leaves it and a reply without a changelist makes it undefined; the write succeeds if and only if the first change has the value asked for |
| `LiveWatch.SecondWriteReplacesFirst` | packages/mcu-debug/src/adapter/live-watch-monitor.ts:387-387 | of two writes before one round the first one's value is sent to nobody |
| `LiveWatch.ValueIsSentExactlyWhen` | packages/mcu-debug/src/adapter/live-watch-monitor.ts:275-404 | a value that earlier writes have left for a client reaches it in the round after one more write if and only if both replies have a changelist or are failures, and the write read nothing back, or GDB names the variable again in what it reads back or in the round |
| `LiveWatch.WriteAndUpdate` | packages/mcu-debug/src/adapter/live-watch-monitor.ts:275-404 | the same over the two methods, for every client and every value left |
| `LiveWatch.CollectedNames` | packages/mcu-debug/src/adapter/live-watch-monitor.ts:283-289 | a client is sent exactly the names of the round that lead to its prefix |
| `LiveWatch.NoChangelistSilencesRounds` | packages/mcu-debug/src/adapter/live-watch-monitor.ts:275-310 | a write whose reply has no changelist: the next round sends nothing although GDB reports a change, and changes nothing |
| `LiveWatch.RoundsAreSilentExactlyWhen` | packages/mcu-debug/src/adapter/live-watch-monitor.ts:275-404 | after any writes and rounds the list of written values is undefined if and only if the last write that got an answer got one without a changelist |
| `LiveWatch.OnlyRoundsNames` | packages/mcu-debug/src/adapter/live-watch-monitor.ts:283-289 | what a client is sent under a name is an update of the round with that name |
| `Breakpoints.RunAgreesExactlyWhen` | packages/mcu-debug/src/adapter/breakpoints.ts:140-405 | over every run of the four requests the tables are disjoint and within GDB's set; they are all of it if and only if they were before and every request was complete, so what was lost stays lost |
| `Breakpoints.RequestAgreesExactlyWhen` | packages/mcu-debug/src/adapter/breakpoints.ts:140-405 | after a request tables and GDB agree if and only if they did before and no accepted insertion is unreadable or precedes a reference that does not parse |
| `Breakpoints.CompleteWhateverGdbTakes` | packages/mcu-debug/src/adapter/breakpoints.ts:219-245 | whatever GDB takes or refuses, with readable replies: nothing is lost if and only if the old breakpoints cannot be deleted, every reference parses, or the first one does not |
| `Breakpoints.StepLoses` | packages/mcu-debug/src/adapter/breakpoints.ts:140-405 | a request keeps the tables sound, and loses exactly the numbers GDB gave out that no table took |
| `Breakpoints.ResponsesMatchRequests` | packages/mcu-debug/src/adapter/breakpoints.ts:183-216 | a request that does not throw is answered at each index for the request at that index: verified with the number under which that breakpoint is filed if and only if GDB took it, for a source file on the line that GDB chose, or else GDB's message |
| `Breakpoints.ThrowsExactlyWhen` | packages/mcu-debug/src/adapter/breakpoints.ts:140-416 | a request throws if and only if there is something to delete and GDB refuses, or it is for instructions and some reference does not parse |
| `Breakpoints.CommandsInOrder` | packages/mcu-debug/src/adapter/breakpoints.ts:140-181 | one deletion of all there is comes first, then the insertions in the order of the request, none after a refused deletion, and those before the first reference that does not parse |
| `Breakpoints.TableIsInResponse` | packages/mcu-debug/src/adapter/breakpoints.ts:183-216 | the table holds nothing that the response does not name |
| `Breakpoints.MalformedReferenceStrandsEarlierOnes` | packages/mcu-debug/src/adapter/breakpoints.ts:219-245 | a number and a name in one request: it fails, and GDB keeps a breakpoint that no table knows |
| `Breakpoints.NumbersAreNew` | packages/mcu-debug/src/adapter/breakpoints.ts:183-216 | GDB's numbers in one request are new and grow in the order of the request |
| `Breakpoints.BreakpointManager.ExecuteWhileStopped` | packages/mcu-debug/src/adapter/breakpoints.ts:84-109 | the target runs afterwards if and only if it ran before, also when the operation throws; a failed interrupt sends nothing for the request and leaves it for the next stop; otherwise the requests left so far are carried out first, and tables and GDB agree if and only if they did before and all of these were complete |
| `Breakpoints.BreakpointManager.TargetStops` | packages/mcu-debug/src/adapter/breakpoints.ts:89-96 | when the target stops by itself the requests that failed interrupts have left are carried out in order; tables and GDB agree if and only if they did before and each of them was complete |
| `Breakpoints.FailedRequestActsLater` | packages/mcu-debug/src/adapter/breakpoints.ts:84-109 | a request whose interrupt is refused fails and changes nothing, and its breakpoint is set when the target stops later |
| `Breakpoints.BreakpointManager.SetBreakpoints` | packages/mcu-debug/src/adapter/breakpoints.ts:140-217 | only this file's table changes, as the transition says; the commands are the deletion and then the insertions in order; throws if and only if there are breakpoints to delete and GDB refuses |
| `Breakpoints.BreakpointManager.SetInstructionBreakpoints` | packages/mcu-debug/src/adapter/breakpoints.ts:219-275 | the same for instruction breakpoints, including the early end at a reference that does not parse: throws if and only if there is one, or the deletion is refused |
| `Breakpoints.BreakpointManager.SetFunctionBreakpoints` | packages/mcu-debug/src/adapter/breakpoints.ts:277-341 | the same for function breakpoints |
| `Breakpoints.BreakpointManager.SetDataBreakpoints` | packages/mcu-debug/src/adapter/breakpoints.ts:343-405 | the same for data breakpoints |
| `Breakpoints.BreakpointManager.DeleteOld` | packages/mcu-debug/src/adapter/breakpoints.ts:407-416 | no command for an empty list; a refused deletion deletes nothing and throws |

## Left out

- RttUp.UpChannel.TryDrainFromDevice: GDB answers every read in full; short reads, which stop a drain early, are not modelled.
- RttOverlap.SendKeepsOrderExactlyWhen: for states that safe writes lead to, whose buffer fits; there is one poll loop, an answer of GDB takes effect in the step in which the pass goes on, and GDB accepts every write.
- RttOverlap.RepairedRunKeepsOrder: about a form that the source does not have; it shows which changes suffice.
- RTT rings of size zero, several channels at once, the search for the control block, throughput statistics and `RttTcpServer`; the bytes of a descriptor and of `readWord` and `writeWord`, whose endianness is not modelled.
- CanonicalKey.CanonicalKeyDecidesEquality: JSON data with finite numbers; `Date`, `RegExp`, `undefined`, functions, cyclic values and objects that bring their own key are left out, and so are objects that change while registered.
- Handles.RunKeepsInv: registries of primitives have keys compared by `===`, with `NaN` left out and both zeros one value.
- References.VarAndScopeReferencesDiffer: about `encodeVarReference` and `encodeScopeReference` only; `addFrameInfo` returns a plain counter, which has bit 3 set from handle 8 on.
- Funnel.DeliveryIsPrefix: payloads are bytes; the JSON of control messages is not parsed, and one socket is modelled, not reconnection.
- ControlCommands.EachCommandSettlesAtMostOnce: what callers do with a settled command, and logging, are left out.
- Streams.RemoteServer.DataFromServer: which server a frame is for, by stream id, is not modelled.
- HelperFraming.BodiesAreTakenInOrder: one code unit per byte, so UTF-8 and the JSON parser are a parameter that accepts or rejects a body; lengths above 2^53 are not rounded.
- Serializer.OneAtATimeInOrder: sequence numbers are distinct and a handler answers through the session; what handlers do is left out.
- LineSplitting.ChunkingMattersExactlyWhen: about final lines; partial lines shown by the flush timer are recorded by the class and not part of the comparison.
- Ports.TcpPortScanner.FindFreePorts: the hosts to hold are given and binding is exclusive; probing of hosts, the order of completion of concurrent calls, and clients that clear `AvoidPorts` are left out.
- Disassembly.InstrRangeCache.AddRange: the symbols and instructions that ranges carry, and the binary search of the sorted array, are left out.
- Disassembly.InstrRangeCache.Insert: likewise; taking over the symbols of a range sends its bound through `Number` once more, which changes nothing below 2^53.
- LiveWatch.LiveMonitor.UpdateVariables: how GDB's updates are applied to containers, and the timer that starts a round.
- LiveWatch.LiveMonitor.WriteViaMonitor: the reading of numbers is a parameter, and the command that writes is left out.
- Breakpoints.RunAgreesExactlyWhen: no temporary breakpoints; GDB deletes a list of breakpoints as a whole or not at all, and never reuses a number. The text of commands, hit conditions, and what counts as a number in an instruction reference are data of a request. Requests do not overlap.
- Breakpoints.BreakpointManager.ExecuteWhileStopped: GDB reports the stop after an interrupt that it accepts. Listeners for one stop are modelled one after the other; in the source they take turns at their awaits.
- Disassembly itself, unwrapping of C++ and Rust types, symbol files, launch sequencing, user interface, telemetry and build scripts: name matching and plumbing without a state of their own to prove anything about.
