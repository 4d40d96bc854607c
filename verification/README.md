# Verified models of the access node's shared components

Dafny models of the parts of `AccessNode` whose correctness rests on subtle state: an id allocator on
a pointer list, the framing and reassembly of serial packets, the command and firmware stream
compilers, the rule scheduler, a chained hash table, the INI editor, and four smaller coders. Objects
whose methods change fields are classes over the same fields and pointers; loops stay loops and are
proved against specification functions, about which the properties are then proved for all inputs
and all runs.

`dafny verify dfyconfig.toml` checks the whole project.

## What is modelled

* `ObjLists`, `Intervals`, `IdPool`, `IdsBooking` - the doubly linked list with its pointer surgery;
  sorted disjoint intervals as values; a pool of ids as a plain set; and the allocator that keeps the
  intervals in the list and refines the pool. The run theorems (no id is issued while it is booked,
  every id given back is issued again, next fit, conservation) are proved on the pool and carry over by refinement.
* `Bytes`, `Framing`, `PacketStreams`, `Resync` - byte stuffing, the resynchronising parser, the in-place decoder,
  and the 512-byte receive buffer. A read of the link is a nondeterministic chunk. The main theorem is
  about every list of messages, any STX-free noise between the frames, and every chopping of the
  byte stream into reads; after arbitrary garbage the stream is in step again within one buffer.
* `Crc` - the table-driven CRC-CCITT against the bit-by-bit one, for every accumulator and byte.
* `LengthPrefixed`, `FirmwareStream`, `FlashChecks`, `FlashReceiver`, `RuleCommands` - command streams with
  16-bit length prefixes; the firmware packetiser with its activation table, a receiver that reads every
  byte of its stream and obeys what is for it, and what it finds when it checks its flash against the table; the packing of rule commands into an event, their composition, and the
  in-place expansion of a file into flash-write commands.
* `Schedules`, `Rules`, `Events`, `Episodes` - mixed-radix schedule arithmetic, the per-rule state machine
  with its predictor, the rule file as a sequence of rules with runs of polls, responses and reports, and
  when in such runs a rule is sent.
* `HashTables` - chained buckets refining a finite map, and the stateless cursor.
* `IniText`, `IniSearch`, `IniFormat`, `IniEdits`, `IniDeletes`, `IniJoins`, `IniReads`, `IniFile` - lines as
  `fgets` cuts them, the search for groups and variables, the format it accepts, replacing and deleting a value in place, and the
  effect on it and on every other variable.
* `Basics` - what several of them share.
* `SmtpBody`, `Base64`, `PersistentMsgIds` - mail body transparency (section 4.5.2 of RFC 2821), the
  coder of section 4 of RFC 4648, and the crash-safe id counter.

Some promises fail for some inputs, and the models keep the code's behaviour:

* The search finds the new value of a variable after setting it if and only if the text behind the old
  value is clean (`IniReads.GetAfterSet`, `IniReads.CleanCases`): nothing but blanks before the line
  stops, for an old value that ends inside its line. An old value with an unterminated quote takes
  the line end with it, and the new value is then read on into the next line, unless that is blank or
  a comment (`IniReads.NextLineIsRead`), or in the last line with its padding, if it is shorter
  (`IniReads.PaddingIsRead`). `GetVar` hands the new value out also where what stands behind it is cut
  off by the caller's buffer or is a quote mark that `GetVar` takes off (`IniReads.GetVarAfterSet`,
  `IniReads.QuotedTailStays`).
* Such a join also loses what the next line says (`IniJoins.NextVariableIsLost`); it changes another
  variable unless the next line defines nothing and hides nothing (`IniJoins.OthersKeptExactly`).
* A lone command with code 0xFF never goes out as its frame, and a linked list whose first code is
  0x11 sends a file instead (`RuleCommands.PackedThenSent`).
* The schedule predictor for fixed intervals is exact past the trigger guard. Inside it, it is late, on
  time or early by an arithmetic condition (`Rules.PredictorRight`, `Rules.AnnouncedInGuard`,
  `Rules.LateByFifth`). For plain intervals it is late when the rule was last sent before the
  last edge and is not announced for now (`Rules.IntervalLate` says exactly when,
  `Rules.IntervalPredictsLate` names an input). The scheduler misses a transmission exactly
  when some rule in its guard or at plain intervals fires before the sleep ends
  (`Events.SleepMissesNothing`).
* Ids come again when the process dies after the stored mark has wrapped
  (`PersistentMsgIds.WrappedMarkRepeats`, `PersistentMsgIds.RunPastTheMarkRepeats`), but not before they
  reach the upper end when it does not (`PersistentMsgIds.IncreaseWithoutCrash`).

## Model

| member | source | states |
|---|---|---|
| ObjLists.ObjList.AddHead | AccessNode/Shared/ObjList.h:134-155 | the new element stands first, everything else keeps its place, links mirrored and count right |
| ObjLists.ObjList.AddTail | AccessNode/Shared/ObjList.h:157-173 | the new element stands last, everything else keeps its place |
| ObjLists.ObjList.InsertAfter | AccessNode/Shared/ObjList.h:321-338 | the element goes in right behind the position, or at the end for NULL |
| ObjLists.ObjList.InsertBefore | AccessNode/Shared/ObjList.h:340-357 | the element goes in right before the position, or at the start for NULL |
| ObjLists.ObjList.RemoveAt | AccessNode/Shared/ObjList.h:210-247 | exactly that element goes; the cursor is on the successor or NULL; NULL changes nothing |
| ObjLists.ObjList.RemoveAll | AccessNode/Shared/ObjList.h:177-206 | every element is freed once, in order, and the list is empty |
| ObjLists.ObjList.SetAt | AccessNode/Shared/ObjList.h:313-319 | only the value at the position changes; NULL is refused |
| ObjLists.ObjList.GetNext | AccessNode/Shared/ObjList.h:267-278 | the value at the cursor, and the cursor on the next element or NULL |
| ObjLists.ObjList.GetPrev | AccessNode/Shared/ObjList.h:294-305 | the value at the cursor, and the cursor on the previous element or NULL |
| ObjLists.ObjList.constructor | AccessNode/Shared/ObjList.h:120-126 | an empty list |
| Intervals.FillIds | AccessNode/Shared/IdsBooking.cpp:111-139 | extending, joining or inserting at a gap adds exactly one id to the set covered |
| Intervals.FillCanonical | AccessNode/Shared/IdsBooking.cpp:111-139 | the intervals stay sorted, disjoint, non-adjacent, from min to max |
| Intervals.CutIds | AccessNode/Shared/IdsBooking.cpp:293-314 | dropping, shortening or splitting an interval takes exactly one id from the set covered |
| Intervals.CutCanonical | AccessNode/Shared/IdsBooking.cpp:293-314 | the intervals stay sorted, disjoint, non-adjacent, from min to max |
| IdsBooking.IdsBooking.constructor | AccessNode/Shared/IdsBooking.cpp:33-50 | two sentinels, the repaired upper bound, and for ranges with room the empty pool |
| IdsBooking.IdsBooking.Add | AccessNode/Shared/IdsBooking.cpp:57-142 | refines adding to the set of booked ids; an id out of range or a full pool changes nothing |
| IdsBooking.IdsBooking.GetNewId | AccessNode/Shared/IdsBooking.cpp:144-176 | refines first fit |
| IdsBooking.IdsBooking.GetNewId2 | AccessNode/Shared/IdsBooking.cpp:178-266 | refines next fit with wrap-around |
| IdsBooking.IdsBooking.SeekGap | AccessNode/Shared/IdsBooking.cpp:202-218 | the walk skips booked ids only, and ends in the first gap or past the last interval |
| IdsBooking.IdsBooking.Remove | AccessNode/Shared/IdsBooking.cpp:269-318 | refines giving an id back, whose effect on later allocations the run theorems of `IdPool` state; ids that are not booked or out of range change nothing |
| IdsBooking.FirstFit | AccessNode/Shared/IdsBooking.cpp:163-166 | one interval means full; otherwise the id behind the first interval is the least free one |
| IdsBooking.NextFreeInGap | AccessNode/Shared/IdsBooking.cpp:225-233 | an id in a gap reached over covered ids only is the next free one |
| IdPool.StepIsSafe | AccessNode/Shared/IdsBooking.cpp:57-318 | every operation keeps the pool valid; an allocation answers max exactly when full, and then changes nothing; otherwise it books a free id in range |
| IdPool.NextFit | AccessNode/Shared/IdsBooking.cpp:178-266 | the least free id above the last one if there is any and the last is strictly inside, else the least free id |
| IdPool.RunIsSafe | AccessNode/Shared/IdsBooking.cpp:57-318 | every pool in every run of operations is valid, with the same bounds |
| IdPool.StaysBooked | AccessNode/Shared/IdsBooking.cpp:144-318 | a booked id stays booked until it is removed |
| IdPool.NeverIssuedTwice | AccessNode/Shared/IdsBooking.cpp:144-266 | if a run issues the same id twice, it was removed in between |
| IdPool.AllocationsConserve | AccessNode/Shared/IdsBooking.cpp:178-266 | n allocations with room for n book n new ids and lose none |
| IdPool.FullByCount | AccessNode/Shared/IdsBooking.cpp:156-161 | full means exactly max - min - 1 ids are booked |
| IdPool.FirstFitIsLeast | AccessNode/Shared/IdsBooking.cpp:144-176 | first fit answers the least free id |
| IdPool.StepBooks | AccessNode/Shared/IdsBooking.cpp:57-318 | a step books exactly the id it answers or adds with room, gives back exactly the id it removes, and leaves every other id alone |
| IdPool.BookedByHistory | AccessNode/Shared/IdsBooking.cpp:57-318 | whether an id is booked after a run: exactly if it was at first and was never given back, or some step booked it and none has given it back since |
| IdPool.GivenBackIsAnswered | AccessNode/Shared/IdsBooking.cpp:269-318 | in a full pool an id given back is what the next allocation of either kind answers |
| IdPool.FreeIsIssuedAgain | AccessNode/Shared/IdsBooking.cpp:178-266 | as many allocations as there are free ids answer each of the free ids |
| IdPool.GivenBackIsIssuedAgain | AccessNode/Shared/IdsBooking.cpp:178-318 | after any run an id whose last event is that it was given back is free, and enough allocations issue it again |
| IdPool.AddedIsNotAnswered | AccessNode/Shared/IdsBooking.cpp:57-142 | an id added with room is answered by no allocation before it is given back |
| IdPool.IdleAdd | AccessNode/Shared/IdsBooking.cpp:57-142 | adding succeeds exactly for ids in range; out of range or in a full pool it changes no later state, and so no later answer |
| IdPool.NextFitGoesOn | AccessNode/Shared/IdsBooking.cpp:178-266 | next fit goes on behind the id that was booked last, by whatever operation, and whatever was given back since |
| Framing.EscapeMsg | AccessNode/Shared/h.cpp:230-245 | the buffer holds the frame of the message; the length is its 16-bit remainder |
| Framing.ParseRxMessage | AccessNode/Shared/h.cpp:91-132 | the buffer without what stood before the first STX, and the length of the first frame or 0; a second STX drops all |
| Framing.UnescapeMsg | AccessNode/Shared/h.cpp:140-162 | in place, the decoding of what stands between the first and last byte |
| Framing.DecodeInPlace | AccessNode/Shared/h.cpp:149-161 | the in-place loop never overwrites a byte it has yet to read and computes the decoding |
| Framing.RoundTrip | AccessNode/Shared/h.cpp:140-162 | decoding the frame of any message gives the message |
| Framing.FrameSays | AccessNode/Shared/h.cpp:230-245 | the frame byte by byte: 0xF0, 0xF1 and 0xF2 go as 0xF2 and their complement |
| Framing.DecodeSays | AccessNode/Shared/h.cpp:149-161 | the decoder on bytes that no encoder wrote: 0xF2 always gives way to the complement of the next byte, or of the last byte of the frame; the first and last byte go, whatever they are |
| Framing.ParseSays | AccessNode/Shared/h.cpp:91-132 | the buffers the parser tells apart: noise, an open frame behind noise, a second 0xF0, and a complete frame with what is behind it |
| PacketStreams.PacketStream.GetMsgLen | AccessNode/Shared/PacketStream.cpp:75-119 | buffer, link and result are what the step function says for some chunk size |
| PacketStreams.PacketStream.Read | AccessNode/Shared/PacketStream.cpp:125-166 | one read takes a whole frame off the buffer and returns its payload, or returns nothing |
| PacketStreams.ReadConserves | AccessNode/Shared/PacketStream.cpp:75-166 | what a read returns, followed by what is still to come, is what was to come before |
| PacketStreams.EveryChopping | AccessNode/Shared/PacketStream.cpp:75-166 | for any messages, noise and chopping, the packets returned are a prefix of the messages whose frames fit, and exactly the last items are still pending; an oversize message is lost alone |
| PacketStreams.AllDelivered | AccessNode/Shared/PacketStream.cpp:125-166 | once the wire is drained and a read returns nothing, every message that fits has been returned |
| PacketStreams.CleanLine | AccessNode/Shared/PacketStream.cpp:125-166 | on a clean line with fitting frames the packets are a prefix of the messages, in order |
| PacketStreams.NeverFull | AccessNode/Shared/PacketStream.cpp:84-90 | when every frame fits, no state of any run meets the test that drops a full buffer |
| PacketStreams.AllInTime | AccessNode/Shared/PacketStream.cpp:125-166 | however little each read is offered, after twice as many reads as there are bytes every message that fits has been returned |
| PacketStreams.ReadAdvances | AccessNode/Shared/PacketStream.cpp:97-118 | a read that is offered something returns a packet or takes bytes off the wire, unless the wire is empty |
| Resync.AfterGarbage | AccessNode/Shared/PacketStream.cpp:75-166 | whatever stands in the buffer at first: some garbage is returned, then exactly the messages that fit from some number on; all but the last of those lost lie within one buffer of bytes, and out of step nothing is lost |
| Resync.GarbageOnWire | AccessNode/Shared/PacketStream.cpp:75-166 | the same for any garbage on the wire in front of the frames: besides, at most the messages that the read going past it has taken in are lost |
| Resync.GarbledRead | AccessNode/Shared/h.cpp:91-132 | one read with garbage in the buffer returns it as a packet or loses what came in with it, and is then in step |
| Crc.Crc | AccessNode/Shared/Utils.cpp:425-440 | the loop over eight bits is eight steps of the shift register with polynomial 0x1021 |
| Crc.TableIsBitwise | AccessNode/Shared/Utils.cpp:836-906 | the table step equals the bitwise step for every accumulator and byte |
| Crc.CrcRFBlock | AccessNode/Shared/Utils.cpp:920-929 | the byte-swapped bitwise CRC of the block from 0 |
| Crc.ComputeCRCTable | AccessNode/Shared/h.cpp:248-256 | the byte-swapped bitwise CRC of the buffer from 0xFFFF |
| Crc.ComputeCRC | AccessNode/Shared/Utils.cpp:463-482 | the two bytes of the bitwise CRC from any start value, marks avoided as the code does |
| Crc.PlainSays | AccessNode/Shared/Utils.cpp:463-482 | no result byte is a mark or the escape character, and any other byte stays |
| Crc.FoldAppend | AccessNode/Shared/Utils.cpp:920-929 | the CRC of a concatenation is the CRC of the second part from that of the first |
| Crc.AppendedCrcChecks | AccessNode/Shared/Utils.cpp:920-929 | a block followed by its own CRC has CRC 0 |
| Crc.OneBadByteShows | AccessNode/Shared/Utils.cpp:425-440 | changing one byte anywhere always changes the CRC |
| Crc.CheckValue | AccessNode/Shared/Utils.cpp:425-440 | the nine digits have the published check value 0x31C3 from zero, and the swap puts the low byte first |
| LengthPrefixed.SplitStream | AccessNode/Shared/Utils.cpp:1132-1149 | cutting a stream at its length prefixes gives back exactly the commands |
| FirmwareStream.MakeStream | AccessNode/Shared/Utils.cpp:985-1300 | the return code as a function of the records, and on success exactly the stream of the commands |
| FirmwareStream.TakeRecord | AccessNode/Shared/Utils.cpp:1121-1193 | one kept record: image, packet, table and offsets move on together; fails exactly when the table is full at an address jump |
| FirmwareStream.StartPacket | AccessNode/Shared/Utils.cpp:1126-1185 | the packet collected goes out, a new one begins at the record, and behind a gap a table entry is written; fails exactly when the table has no room |
| FirmwareStream.Outcome | AccessNode/Shared/Utils.cpp:1154-1240 | success exactly when the last record does not end at the code start and the table has room |
| FirmwareStream.PackingPreservesFlash | AccessNode/Shared/Utils.cpp:1125-1192 | executing the packets does to any flash what loading the records does |
| FirmwareStream.KeptAre | AccessNode/Shared/Utils.cpp:1121-1125 | the records kept are those from 0x2202 on, in order |
| FirmwareStream.OutcomeMeans | AccessNode/Shared/Utils.cpp:1154-1240 | the return code by the number of segments and the end of the last record kept: 4 when the table is full before the last entry, else 3 when nothing reaches beyond the code start, else 4 when the last entry has no room |
| FirmwareStream.PacketsAreMaximal | AccessNode/Shared/Utils.cpp:1125-1192 | where a packet goes on behind another the two together exceed the limit |
| FirmwareStream.PacketsWithinLimit | AccessNode/Shared/Utils.cpp:1126 | no packet exceeds the limit when no record does |
| FirmwareStream.SegmentsListRecords | AccessNode/Shared/Utils.cpp:1154-1191 | the activation segments name exactly the addresses the records write, in order |
| FirmwareStream.SegmentsAreMaximal | AccessNode/Shared/Utils.cpp:1154-1191 | no segment could be joined to the next |
| FirmwareStream.ChecksumsAreFinal | AccessNode/Shared/Utils.cpp:1125-1170 | without overlapping records, each checksum is over the bytes the segment holds in the end, whatever the flash held before |
| FirmwareStream.TableChecks | AccessNode/Shared/Utils.cpp:1126-1278 | a receiver with any flash that executes the packets finds both checksums of every table entry to agree, when no records overlap |
| FlashChecks.TableGuardsFlash | AccessNode/Shared/Utils.cpp:1126-1278 | with the CRC of the block for the second checksum: the table agrees after the packets are executed, and no longer when any one byte in a listed range is changed |
| FlashChecks.WrongByteShows | AccessNode/Shared/Utils.cpp:920-929 | two blocks that differ in one byte have different CRCs |
| FirmwareStream.CommandsRecovered | AccessNode/Shared/Utils.cpp:1128-1150 | splitting the stream by its length prefixes gives back the commands |
| FirmwareStream.UpdatesLoadRecords | AccessNode/Shared/Utils.cpp:1126-1234 | the packets a receiver reads from the update commands do to any flash what the kept records do |
| FirmwareStream.TableListsRecords | AccessNode/Shared/Utils.cpp:1154-1179 | the address ranges in the activation table are those the kept records write, in order |
| FirmwareStream.PutUpdate | AccessNode/Shared/Utils.cpp:1128-1150 | a flash update goes out behind its length, wrapped for its target when broadcast on demand |
| FirmwareStream.PutActivation | AccessNode/Shared/Utils.cpp:1258-1278 | the activation command goes out behind its length, with the on-demand bit of the command |
| FlashReceiver.StreamIsObeyed | AccessNode/Shared/Utils.cpp:1054-1278 | the stream splits into updates, if an upload is asked for, and a last activation; a receiver that obeys the updates for its own target, as a number high byte first, has the kept records in its flash when it is the target given, and the flash it had when it is not |
| FlashReceiver.UpdatesSay | AccessNode/Shared/Utils.cpp:1128-1150 | every update names its code, behind the on-demand target and headers if it is wrapped, and the target |
| FlashReceiver.UpdateSays | AccessNode/Shared/Utils.cpp:1054-1057 | and where its data goes, and the data |
| FlashReceiver.ActivationSays | AccessNode/Shared/Utils.cpp:1258-1278 | the activation names its code, behind the on-demand target and headers if it is wrapped, the target, the action asked for and the table |
| FlashReceiver.TableSays | AccessNode/Shared/Utils.cpp:1154-1179 | the table has 8 bytes for every segment: its checksums low byte first, its start and length high byte first |
| FlashReceiver.LoadedBytes | AccessNode/Shared/Utils.cpp:1125 | what loading records leaves in each byte of the flash: the last record that covers it counts |
| RuleCommands.Event.ValidateCommand | AccessNode/Shared/RuleDefFile.cpp:302-403 | accepts one command of up to 256 bytes, or several whose lengths plus 3 sum to at most 256, and then the event carries them |
| RuleCommands.AcceptedMeans | AccessNode/Shared/RuleDefFile.cpp:302-403 | accepted are exactly one command with up to 256 bytes of data, and several that with their lengths and codes make up to 256 bytes |
| RuleCommands.Event.Shift | AccessNode/Shared/RuleDefFile.cpp:360-369 | the first command moves behind its own length and code |
| RuleCommands.Event.GetCommand | AccessNode/EventsScheduler/AppS.cpp:80-167 | the bytes sent for an event, for the plain, linked and write-in-flash cases |
| RuleCommands.PackedThenSent | AccessNode/EventsScheduler/AppS.cpp:88-167 | packing then composing sends the commands' frames, exactly when a lone code is not 0xFF; linked lists do unless the first code is 0x11, which sends the named file |
| RuleCommands.LinkedSplits | AccessNode/Shared/RuleDefFile.cpp:371-384 | linked commands split into their parts again |
| RuleCommands.ExpandInPlace | AccessNode/EventsScheduler/AppS.cpp:108-130 | for every accepted length the in-place expansion is the chunk commands, never overlaps a copy, never outgrows the file |
| RuleCommands.FlashStreamMeans | AccessNode/EventsScheduler/AppS.cpp:108-130 | the output is no longer than the file, splits again, and a controller that takes only commands with the code 0x11 for flash writes has the payload in its flash |
| RuleCommands.ChunksWritePayload | AccessNode/EventsScheduler/AppS.cpp:113-127 | such a controller puts the whole payload to the right offsets by executing the chunk commands |
| RuleCommands.ChunkAt | AccessNode/EventsScheduler/AppS.cpp:113-127 | command number i, of as many as there are 32 bytes begun, has the code 0x11, the offset 32 * i, and the 32 bytes there or the rest |
| RuleCommands.FlashCommands | AccessNode/EventsScheduler/AppS.cpp:102-110 | a file is sent exactly if it has 512 to 3264 bytes, as the commands for what is behind the first 512 |
| RuleCommands.WireBytes | AccessNode/EventsScheduler/AppS.cpp:148-163 | a command goes out as its length, high byte first, its code and its data |
| Schedules.GetSchedTimeInterval | AccessNode/Shared/EventsStruct.cpp:383-400 | Horner's loop equals the sum of the fields times their weights |
| Schedules.GetTrigInterval | AccessNode/Shared/EventsStruct.cpp:402-415 | 15 with seconds set, else the weight of the last field set |
| Schedules.GetBasePeriod | AccessNode/Shared/EventsStruct.cpp:419-433 | the unit size times the weight of the first field that counts, or 1 |
| Schedules.IntervalBelowPeriod | AccessNode/Shared/EventsStruct.cpp:383-433 | positive exactly when some field counts, and strictly below the base period when fields are within their units |
| Schedules.TriggerDivides | AccessNode/Shared/EventsStruct.cpp:383-433 | with seconds open the trigger width divides interval and period |
| Schedules.IntervalInSeconds | AccessNode/Shared/EventsStruct.cpp:383-400 | the interval in seconds, field by field: years of 12 months of 30 days; an open field counts for nothing |
| Schedules.PeriodIsNextUnit | AccessNode/Shared/EventsStruct.cpp:419-433 | the period is one unit of the next larger field than the first that counts, 127 years for a year, a second for none |
| Schedules.TriggerIsSmallest | AccessNode/Shared/EventsStruct.cpp:402-415 | the width is 15 seconds with seconds set, else one unit of the smallest field set |
| Rules.Event.IsSignaling | AccessNode/Shared/EventsStruct.cpp:65-181 | the rule after a poll and whether it sends; a change always asks for being written back |
| Rules.Event.GetNextSchedTime | AccessNode/Shared/EventsStruct.cpp:183-259 | the predicted seconds, and the access time moved back when the clock was |
| Rules.Event.PrepareSend | AccessNode/Shared/EventsStruct.cpp:262-268 | the state of a rule at the start of an episode |
| Rules.Event.CheckMatch | AccessNode/Shared/EventsStruct.cpp:281-306 | a matching report makes the rule send at the next poll, any other changes nothing |
| Rules.PredictorExact | AccessNode/Shared/EventsStruct.cpp:232-256 | past the guard: 0 exactly when the rule fires now, else quiet and unchanged until the predicted second, at which it fires exactly if its window is open, across period boundaries |
| Rules.PredictorRight | AccessNode/Shared/EventsStruct.cpp:232-256 | the prediction for an answered rule is right exactly past the guard, or when its guess, an interval after the last access less a fifth of the trigger width, is the first second at which the rule fires, or when the active window closes before both |
| Rules.GuardFires | AccessNode/Shared/EventsStruct.cpp:159-177 | inside the guard an answered rule is quiet up to its first window past the guard, and fires then |
| Rules.AnnouncedInGuard | AccessNode/Shared/EventsStruct.cpp:236-239 | inside the guard, also for an access time ahead of the clock, the rule is announced for the guess or for now if it has passed; late, on time or early as the guess is after, at or before the first second at which it fires |
| Rules.FiresAtNextWindow | AccessNode/Shared/EventsStruct.cpp:159-177 | a rule sent a seconds into a window fires when the next one opens, an interval on or when the period starts anew |
| Rules.LateByFifth | AccessNode/Shared/EventsStruct.cpp:236-239 | with a whole interval left in the period, the prediction is late exactly for a > trigger / 5, and on time at equality |
| Rules.WindowsAhead | AccessNode/Shared/EventsStruct.cpp:248-255 | no window opens before the predicted second, and one opens then |
| Rules.GuardPredictsLate | AccessNode/Shared/EventsStruct.cpp:236-239 | an instance: a quarter-hour rule sent at 920 s is announced for 1808 s and fires at 1800 s |
| Rules.NeverEarly | AccessNode/Shared/EventsStruct.cpp:183-259 | a rule with computed times stays quiet through any part of its predicted time exactly if it neither is in its guard nor sends at plain intervals, or its first second to fire lies behind that part |
| Rules.IntervalFires | AccessNode/Shared/EventsStruct.cpp:111-148 | a plain-interval rule is quiet up to the first second that is past its guard and within a trigger width of an edge or more than an interval behind the last access, and fires then |
| Rules.IntervalRight | AccessNode/Shared/EventsStruct.cpp:212-231 | the prediction for such a rule is right exactly when it names that second, or the active window closes before both |
| Rules.IntervalLate | AccessNode/Shared/EventsStruct.cpp:212-231 | it is late exactly when the rule is not announced for now and its last access lies more than a second before the last edge, or before it at all with the window behind that edge open |
| Rules.IntervalPredictsLate | AccessNode/Shared/EventsStruct.cpp:225-230 | an instance: a quarter-hour rule sent at 850 s is announced at 905 s for 1800 s, and fires at 910 s |
| Rules.OtherPredictions | AccessNode/Shared/EventsStruct.cpp:185-211 | what is predicted where nothing is computed: now for rules not sent, not answered or outside their window, nothing for inactive and reporting ones, the looked-up time for absolute ones; and only an access time ahead of the clock is changed |
| Events.MsgIdRoundTrip | AccessNode/Shared/Events.h:87-89 | position and id come back out of a message id |
| Events.EventsFile.IsSignaling | AccessNode/Shared/Events.cpp:248-273 | exactly the polled rule changes, and nothing of its change is lost |
| Events.EventsFile.UpdateResponse | AccessNode/Shared/Events.cpp:212-245 | succeeds exactly for a valid position with the matching id, and else changes nothing |
| Events.EventsFile.MatchEvents | AccessNode/Shared/Events.cpp:299-327 | every matching rule is re-armed, no other changes, the kind of the last one is returned |
| Events.EventsFile.ForceSend | AccessNode/Shared/Events.cpp:509-539 | exactly that rule is re-armed; a position that no rule has changes nothing |
| Events.EventsFile.GetTimeUntilNextSched | AccessNode/Shared/Events.cpp:331-356 | the least prediction over all rules, although the loop stops early |
| Events.UntilNextIsAttained | AccessNode/Shared/Events.cpp:331-356 | some rule asks for the time that the scan predicts, or it is the constant |
| Events.LastMatchCounts | AccessNode/Shared/Events.cpp:299-327 | the kind of the last rule that matches, or -1 |
| Events.SleepMissesNothing | AccessNode/Shared/Events.cpp:331-356 | while the scheduler sleeps for that time no rule without absolute times fires, exactly if every rule inside its guard or at plain intervals fires no earlier |
| Events.RulesAreIndependent | AccessNode/Shared/Events.cpp:212-327 | in a run on the whole file every rule goes its own way |
| Events.RunKeepsLimit | AccessNode/Shared/EventsStruct.cpp:91-109 | every run from a state within the discipline stays within it |
| Events.RetriesAreBounded | AccessNode/Shared/EventsStruct.cpp:65-109 | in every run with a clock that does not go back, an episode never exceeds the retry limit and its transmissions are at least the retry interval apart |
| Events.NextSendIsFirst | AccessNode/Shared/EventsStruct.cpp:77-109 | once an episode is over, whatever is sent next opens a new one |
| Events.ResponseEndsEpisode | AccessNode/Shared/Events.cpp:212-245 | a matching response ends the episode; one with another id leaves all rules as they were |
| Episodes.FirstPollSends | AccessNode/Shared/EventsStruct.cpp:78-83 | a rule with access time 0 is sent for the first time by the first poll in its active window, whatever happens before, and one transmission is counted |
| Episodes.ForcedIsSent | AccessNode/Shared/Events.cpp:509-539 | so is a rule that was forced, whatever state it was in |
| Episodes.ReportedIsSent | AccessNode/Shared/EventsStruct.cpp:281-306 | so is a rule that gets a report it waits for: of a reporting kind, active, with that code, for that node or for any |
| Episodes.OtherReportsDoNothing | AccessNode/Shared/EventsStruct.cpp:281-306 | a report that a rule does not wait for changes nothing of any run |
| Episodes.ReportSendsExactly | AccessNode/Shared/EventsStruct.cpp:117-121 | an answered reporting rule is sent by a poll behind a report exactly if it waited for that |
| Episodes.UnansweredEpisode | AccessNode/Shared/EventsStruct.cpp:78-109 | an episode that nobody answers, polled a retry interval or more apart, makes exactly as many transmissions as the limit says, the first marked as such, and the next poll gives up without sending |
| Episodes.RepeatsForever | AccessNode/Shared/EventsStruct.cpp:91-109 | without a limit every such poll sends again |
| Episodes.TooEarlyIsQuiet | AccessNode/Shared/EventsStruct.cpp:91-94 | before the retry interval has passed an unanswered rule is quiet |
| Episodes.AnsweredIsSentAgain | AccessNode/Shared/EventsStruct.cpp:111-180 | an answered rule opens a new episode by exactly those polls that find it due, a trigger width or more behind the last access |
| Episodes.ClockSetBack | AccessNode/Shared/EventsStruct.cpp:85-94 | an access time ahead of the clock counts as now |
| Episodes.InactiveIsQuiet | AccessNode/Shared/EventsStruct.cpp:70-76 | outside the active window no poll sends or changes a rule |
| Episodes.ResponseIsRecorded | AccessNode/Shared/Events.cpp:212-245 | a response is recorded, with its time or the clock, for exactly the rule at its position with its id |
| HashTables.HashTable.FindKey | AccessNode/Shared/HashTable.h:211-219 | the chain element of the key, or NULL exactly when it is not in the map |
| HashTables.HashTable.Get | AccessNode/Shared/HashTable.h:103-111 | the mapped value, or none |
| HashTables.HashTable.Set | AccessNode/Shared/HashTable.h:85-101 | the map with the key set |
| HashTables.HashTable.Remove | AccessNode/Shared/HashTable.h:172-187 | the map without the key |
| HashTables.HashTable.GetFirstPos | AccessNode/Shared/HashTable.h:120-132 | the first element in bucket order, or NULL when empty |
| HashTables.HashTable.GetNext | AccessNode/Shared/HashTable.h:147-169 | the next element in bucket order, or NULL at the end |
| HashTables.HashTable.Walk | AccessNode/Shared/HashTable.h:120-169 | walking the cursor visits every key of the map exactly once and ends |
| HashTables.EveryKeyOnce | AccessNode/Shared/HashTable.h:120-169 | the bucket order lists exactly the keys of the map, each once |
| IniFile.IniParser.Fgets | AccessNode/Shared/IniParser.cpp:817 | the next line, up to the buffer limit |
| IniFormat.FirstLineIs | AccessNode/Shared/IniParser.cpp:817 | the first line ends behind the first newline, after 255 characters, or with the file |
| IniFile.IniParser.FindGroup | AccessNode/Shared/IniParser.cpp:256-349 | the file stands behind the first line that opens the group, or none does |
| IniFile.MatchGroup | AccessNode/Shared/IniParser.cpp:275-300 | whether a line has the form of the group's header |
| IniFile.ParseLine | AccessNode/Shared/IniParser.cpp:819-902 | what a line is to the search: group start, definition with its value, or neither |
| IniFile.IniParser.FindNext | AccessNode/Shared/IniParser.cpp:812-908 | the first definition before the next group, its value and file position |
| IniFile.IniParser.FindVariable | AccessNode/Shared/IniParser.cpp:733-754 | definition number n in the first group of that name |
| IniFile.IniParser.GetVar | AccessNode/Shared/IniParser.cpp:1025-1060 | the value without quotes, cut to the buffer; the code is the length of the text or one more, and 0 exactly when the variable is missing, a lone quote mark, or the buffer holds no character of a value |
| IniFormat.CodeIs | AccessNode/Shared/IniParser.cpp:1035-1053 | the code is the length of the text handed out, and one more exactly if the value is empty or a quote mark was taken off the end of what was copied |
| IniFormat.HandsOut | AccessNode/Shared/IniParser.cpp:1035-1053 | what is copied: the text behind an opening quote mark, as much of it as fits, then without a quote mark at its end; 1 and no text for an empty value |
| IniFormat.QuotedReads | AccessNode/Shared/IniParser.cpp:871-904 | a line with a name, `=` and a text in quote marks reads as that text with a code one greater than its length, whatever follows on the line |
| IniFormat.PlainReads | AccessNode/Shared/IniParser.cpp:871-904 | a text without quotes, between white space and a line end or `#`, reads as that text and its length |
| IniFormat.HeaderIs | AccessNode/Shared/IniParser.cpp:275-300 | a line opens a group exactly if, white space aside, it begins with a bracket, the name in either case of its letters, and the closing bracket |
| IniFormat.EntityIs | AccessNode/Shared/IniParser.cpp:821-826 | a line ends a group exactly if its first character that is no white space is `[` or `<` |
| IniFormat.DefinitionIs | AccessNode/Shared/IniParser.cpp:828-846 | the `=` of a definition, exactly: behind the name, in either case, and white space on both sides |
| IniFormat.ValueStartIs | AccessNode/Shared/IniParser.cpp:871-873 | the value begins at the first character behind the `=` that is no white space or ends the line |
| IniFormat.QuotedValue | AccessNode/Shared/IniParser.cpp:878-893 | a quoted value ends behind the next quote mark of its kind, or with the line |
| IniFormat.UnquotedValue | AccessNode/Shared/IniParser.cpp:894-904 | any other value ends before the first line end or `#` and the white space in front of it, or with the line |
| IniFormat.LocateIs | AccessNode/Shared/IniParser.cpp:733-908 | the search finds line k exactly if that defines the name with n definitions before it, behind the first header of the group and before the next header of any kind |
| IniFile.IniParser.ReplaceValue | AccessNode/Shared/IniParser.cpp:1561-1671 | equal, shorter (padded) and longer values are spliced over the old one, the rest of the file kept |
| IniFile.IniParser.SetVar | AccessNode/Shared/IniParser.cpp:1689-1705 | an existing variable's value is replaced in the file; a missing one leaves the file alone |
| IniFile.SetIsSplice | AccessNode/Shared/IniParser.cpp:1561-1671 | splicing the file replaces exactly the value in its line |
| IniFile.SetVarThenGetVar | AccessNode/Shared/IniParser.cpp:1025-1060 | on the files: the value comes back from `GetVar` if and only if what stands behind the old value, in its line or the next one, is nothing, cut off by the buffer, or a quote mark that is taken off |
| IniReads.GetAfterSet | AccessNode/Shared/IniParser.cpp:868-904 | the search finds the new value, empty or not, if and only if the text behind the old value is clean; unterminated quotes included |
| IniReads.CleanCases | AccessNode/Shared/IniParser.cpp:868-904 | clean means: only blanks before the line stops, for a value that ends inside its line; the same for the next line, for one that has swallowed the line end; and a value no shorter than the old one or empty, in the last line |
| IniReads.FoundAfterSet | AccessNode/Shared/IniParser.cpp:1561-1671 | what the search finds after setting, for every old value |
| IniReads.GetVarAfterSet | AccessNode/Shared/IniParser.cpp:1025-1060 | the same for `GetVar` with a buffer that the value fits, by a condition on the old lines |
| IniReads.CleanReadsBack | AccessNode/Shared/IniParser.cpp:1025-1060 | with clean text behind the old value the new one comes back in every buffer it fits |
| IniEdits.FoundIs | AccessNode/Shared/IniParser.cpp:868-904 | what is found in an edited line, joined to the next one if it has lost its end, is the new value followed by what the old lines say |
| IniReads.GetAfterSetUnquoted | AccessNode/Shared/IniParser.cpp:889-902 | an unquoted old value is always replaced cleanly |
| IniEdits.OthersKeepTheirValues | AccessNode/Shared/IniParser.cpp:1561-1671 | every variable in another line keeps its value, and missing ones stay missing, when the edited line stays a line of its own |
| IniJoins.OthersKeptExactly | AccessNode/Shared/IniParser.cpp:1561-1671 | setting a variable leaves all others alone if and only if its old value ends inside its line, or no line follows, or the next line is harmless |
| IniJoins.SettingBlanksNext | AccessNode/Shared/IniParser.cpp:1561-1671 | setting a value that has swallowed its line end does to the variables in other lines what blanking the next line does |
| IniJoins.HarmlessStays | AccessNode/Shared/IniParser.cpp:733-908 | blanking a line without an =, or a header that hides nothing, changes no variable |
| IniJoins.HarmShows | AccessNode/Shared/IniParser.cpp:733-908 | blanking any other line of the section changes some variable |
| IniJoins.NextVariableIsLost | AccessNode/Shared/IniParser.cpp:879-895 | an input: setting an unterminated x loses the y of the next line |
| IniReads.QuotedTailStays | AccessNode/Shared/IniParser.cpp:871-876 | text behind a quoted old value is read as part of the new one, unless the buffer cuts it |
| IniReads.NextLineIsRead | AccessNode/Shared/IniParser.cpp:879-895 | an input: setting an unterminated x, the next line is read as part of the new value |
| IniReads.PaddingIsRead | AccessNode/Shared/IniParser.cpp:879-895 | an input: in the last line the padding is read as part of the new value |
| IniSearch.LocateAlike | AccessNode/Shared/IniParser.cpp:733-908 | replacing a line by one of the same kind moves no variable |
| IniText.LinesOfFlat | AccessNode/Shared/IniParser.cpp:817 | whole lines within the limit are read back as they are |
| IniText.KindShowsEarly | AccessNode/Shared/IniParser.cpp:825-850 | what a line defines is decided before its `=` |
| IniFile.IniParser.DeleteVar | AccessNode/Shared/IniParser.cpp:2204-2259 | erases the stretch from the line end or bracket before the value to the line end behind it |
| IniFile.DeletingBlanksTheLine | AccessNode/Shared/IniParser.cpp:2233-2255 | after a deletion everything is read as if the line were blank, with brackets in front of the value too |
| IniFile.DeletingCutsTheLine | AccessNode/Shared/IniParser.cpp:2233-2255 | a deletion leaves of the line what stands up to the last bracket in front of the value, and its end |
| IniDeletes.DeletedMovesUp | AccessNode/Shared/IniParser.cpp:2204-2259 | the definitions behind a deleted one move up by one, those before it stay |
| IniDeletes.DeletedLeavesOthers | AccessNode/Shared/IniParser.cpp:2204-2259 | every other variable keeps its value |
| IniFile.IniParser.MoveToFront | AccessNode/Shared/Common.cpp:753-829 | moving the end of the file to the front in chunks closes the gap and leaves what is before it |
| SmtpBody.FormatBody | AccessNode/Shared/SmtpSupport.cpp:732-795 | the stuffed normalised body, or -1 exactly when the buffer bound is passed |
| SmtpBody.FitsMeans | AccessNode/Shared/SmtpSupport.cpp:738-764 | the bound in numbers: the output and four bytes more, three if the body ends in a line break; a lone dot and the empty body need 3 |
| SmtpBody.BodyIsTransparent | AccessNode/Shared/SmtpSupport.cpp:732-795 | a receiver gets back any body with its line ends normalised, the terminator being the first end of data |
| SmtpBody.FormattedLine | AccessNode/Shared/SmtpSupport.cpp:732-795 | line by line: a line goes out as it is, with a dot at its start doubled, and behind it one CRLF for every CRLF, lone LF or lone CR |
| SmtpBody.NormaliseLine | AccessNode/Shared/SmtpSupport.cpp:767-783 | normalising keeps every line and makes every break one CRLF |
| SmtpBody.StuffIsPaired | AccessNode/Shared/SmtpSupport.cpp:767-783 | every CR in the output is followed by LF |
| SmtpBody.TwiceSuffices | AccessNode/Shared/SmtpSupport.cpp:757-764 | a buffer of twice the body and five never overflows |
| SmtpBody.PrepareData | AccessNode/Shared/SmtpSupport.cpp:1258-1274 | with the caller's buffer size the body always fits, and the terminator follows it |
| Base64.TablesAreInverse | AccessNode/Shared/SmtpSupport.cpp:1294-1319 | the reverse table inverts the table and holds no pad |
| Base64.OrIsSum | AccessNode/Shared/SmtpSupport.cpp:1363-1369 | oring a number into bits that are free is adding it |
| Base64.PutGroup | AccessNode/Shared/SmtpSupport.cpp:1350-1372 | the switch of the encoder, with its ors, writes the four characters of a group |
| Base64.PutSwitch | AccessNode/Shared/SmtpSupport.cpp:1404-1422 | the switch of the decoder, with its ors, writes the bytes of a group |
| Base64.EncodeBuffer | AccessNode/Shared/SmtpSupport.cpp:1346-1377 | the loop writes the encoding, in all three padding cases |
| Base64.EncodeLength | AccessNode/Shared/SmtpSupport.cpp:1375 | four characters for every three bytes begun |
| Base64.DecodeBuffer | AccessNode/Shared/SmtpSupport.cpp:1389-1428 | the loop writes the decoding of any input, stopping at the first character that is none, and reports its length |
| Base64.TablesAreStandard | AccessNode/Shared/SmtpSupport.cpp:1294-1319 | the tables are those of the RFC, and every other character is invalid |
| Base64.EncodesNumber | AccessNode/Shared/SmtpSupport.cpp:1350-1372 | three bytes and their four characters are one number to the bases 256 and 64; one and two bytes the same with padding |
| Base64.DecodesNumber | AccessNode/Shared/SmtpSupport.cpp:1404-1422 | four, three and two valid characters decode to the bytes of their number |
| Base64.EndsAtStop | AccessNode/Shared/SmtpSupport.cpp:1389-1428 | the length of the input is what stands before the first character that is not valid |
| Base64.OnlyTheFrontCounts | AccessNode/Shared/SmtpSupport.cpp:1389-1428 | what stands from the first character on that is not valid does not matter |
| Base64.RoundTrip | AccessNode/Shared/SmtpSupport.cpp:1346-1428 | decoding an encoded buffer of any length gives the length and the bytes |
| PersistentMsgIds.PersistentMsgId.constructor | AccessNode/Shared/PersistentMsgId.cpp:43-66 | starts at the stored mark and stores a mark one step ahead |
| PersistentMsgIds.PersistentMsgId.GetNextMsgId | AccessNode/Shared/PersistentMsgId.cpp:68-85 | the next id, and the mark stored ahead of it in time, with 32-bit wrap-around |
| PersistentMsgIds.StepSays | AccessNode/Shared/PersistentMsgId.cpp:43-85 | in numbers: ids count up, the mark goes a step on as soon as no more than 50 ids, or half a step, are left before it, and a crash goes on at the mark |
| PersistentMsgIds.IdsIncrease | AccessNode/Shared/PersistentMsgId.cpp:43-84 | under any interleaving with crashes until the mark would wrap, ids strictly increase and the stored mark stays above them |
| PersistentMsgIds.StartsAhead | AccessNode/Shared/PersistentMsgId.cpp:43-66 | a counter on empty storage starts with its mark ahead |
| PersistentMsgIds.WrappedMarkRepeats | AccessNode/Shared/PersistentMsgId.cpp:73-82 | at a mark that would wrap, running on until it moves, a crash and one more id issue the id behind the wrapped mark, for all limits; without overflow and with ids not below the lowest, that is the lowest but one, not above the id before |
| PersistentMsgIds.IncreaseExactly | AccessNode/Shared/PersistentMsgId.cpp:43-84 | the ids of any run, with any crashes, increase exactly when every id behind another one is issued from a place, the last id or the mark found behind a crash, that is not below it and not at the upper end |
| PersistentMsgIds.IncreaseWithoutCrash | AccessNode/Shared/PersistentMsgId.cpp:68-85 | without a crash the ids increase exactly until they reach the upper end, even past a wrapped mark |
| PersistentMsgIds.RunPastTheMarkRepeats | AccessNode/Shared/PersistentMsgId.cpp:43-84 | any run that goes past the limit could have gone on, from the point where it first does, to issue an id not above all before it |

## Left out

- IdsBooking.IdsBooking.Add: ranges with max below min + 2, which the constructor accepts, have no room for an id and are outside the invariant.
- FirmwareStream.MakeStream: begins with parsed records; the Intel-hex text, version registers and file handling are not modelled, and a packet limit of 124 or more, for which the local buffers are too small, is excluded, as are on-demand broadcasts with more than 128 bytes of headers, whose negative length the source hands to `fwrite`.
- FirmwareStream.TableChecks: the two block checksums are parameters; `crcAnsiBlock` is not modelled, `crcRFBlock` is put in by `FlashChecks`.
- RuleCommands.Event.ValidateCommand: begins with parsed commands; the value parser, which cuts hex data at the room left, is not modelled.
- RuleCommands.Event.GetCommand: the file is a parameter, and an event whose file name would overrun the name buffer is excluded.
- Framing.ParseRxMessage: only the third version of the parser; the second reports the payload length and does not fit `CPacketStream::Read`.
- PersistentMsgIds.RunPastTheMarkRepeats: like `IncreaseExactly`, excludes limits so high that adding a step overflows 32 bits; there the wrapped mark may be any number (`WrappedMarkRepeats` names it).
- PacketStreams.PacketStream.Read: escaped mode without timeout; link errors, reopening and interrupts are not modelled.
- Rules.Event.GetNextSchedTime: absolute schedules are a parameter, since they rest on `gmtime` and `mktime`; year-sized intervals do not overflow 32 bits in the model.
- Rules.PredictorRight: only fixed intervals; `IntervalRight` states it for plain ones.
- Events.SleepMissesNothing: files without absolute rules, whose times are a parameter.
- Events.EventsFile.GetTimeUntilNextSched: the clock is read once for the whole scan.
- Events.EventsFile.IsSignaling: file reads and writes do not fail, and locking is not modelled.
- HashTables.HashTable.Remove: memory is not freed explicitly; `Reset` and `SetSize` are left out, as clearing assumes the size of a pointer.
- IniFile.IniParser.GetVar: a value that is a single quote mark, or a buffer of one character, for which the code reads before its buffer, yields the empty string.
- IniFile.IniParser.SetVar: creating variables, groups and subgroups is left out, as is searching in a subgroup.
- IniJoins.OthersKeptExactly: lines that end with a newline, unless they are the last, and stay within the limit of `fgets`, and names without an `=`; a name with one may come to fit the edited line.
- IniReads.GetAfterSet: the edited line, with the next one where it is joined, stays within the limit of `fgets`.
- IniFile.DeletingBlanksTheLine: names without an `=`, and lines behind one that ends with a newline.
- IniFile.IniParser.DeleteVar: only the first group of a name, in a file that ends with a newline.
- IniFile.IniParser.MoveToFront: only towards the start and up to the end of the file, as the callers need.
- SmtpBody.PrepareData: the mail header in front of the body, and the room set aside for it, are not modelled.
- Base64.DecodeBuffer: the bytes written behind the reported length are written but not specified.
- Sockets, serial lines, pipes, select, signals, file locks, logging, web pages and JSON-RPC: calls into libraries that are not part of this model.
- Time zones, daylight saving, and the parsing of start and end times.
- The older packet escaping in Utils.cpp, message classes, buffers and searches without state: they would only add easy members.
- Input, output and allocation failures.
