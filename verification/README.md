# A Dafny model of penguinTrace

penguinTrace is a debugger with its own DWARF reader, stepper and web session.  This project
models the parts of it that interpret or patch data by hand, and proves what they compute:

- `SessionQueue` - the command queue of a session: the worker, `enqueueCommand`, `enqueueStop`
  and `cleanup` as a state machine whose steps are the locked regions and the one unlocked
  emptiness test.  The theorems hold for every interleaving of those steps.
- `SessionProgress` - whether the worker gets on: the deadlock between `cleanup` and a `ParseCmd`,
  the way to each queued command, and what happens once the loop has ended.
- `MapWalk` - the `std::map` pretty printer: an in-order walk over a red-black tree in the memory
  of the traced process, one word at a time.
- `Cfa`, `Frame`, `Unwind` - the early-exit interpreter of call frame programs and the in-place
  update of registers that follows it (section 6.4 of DWARF version 4).
- `Leb128`, `CfaCodec`, `CfaMeaning` - the readers of LEB128 numbers and of call frame
  instructions, with the encoders of the standard as partners, and what the bytes of an entry say
  of the caller's registers.
- `LineMachine`, `LineCodec`, `LineIndex`, `LineSequences` - the line number state machine (section
  6.2 of DWARF version 4), the decoding of its programs from bytes, and the address and line indexes
  built from its rows.
- `DieTree`, `DieIterator` - the rebuilding of debugging information entries from their flat
  stream, and the child iterator that expands base classes.
- `Breakpoints`, `Overlap` - breakpoints as saved 8-byte words, the queued and direct changes, the
  flush, and what happens where words overlap.
- `StringReader`, `Utf8` - text read from memory word by word in its 8, 16 and 32-bit forms.
- `TextTools`, `Base64` - splitting, replacing, JSON escaping and the decoder of uploads.
- `Machine`, `Arith` - 64-bit words and arithmetic helpers.

Code that changes state is a class or a method with loops, and each such method is proved equal
to a function of its input and the old state; the lemmas state what that function means.  Memory
is a function from addresses to words, a stream is a sequence of bytes with a position, and
addresses wrap at 64 bits.

## Where the code differs from its purpose

Several laws hold on a part of the inputs only.  Each is stated with the exact condition.

- A walk of the map printer follows at most 257 links in a loop (`NextNodeIsSuccessor`); no
  red-black tree needs more (`RedBlackIsShallow`).
- LEB128 groups are shifted as 32-bit integers: reading is exact for unsigned values below 2^31
  and for signed values of 32 bits, and for no others (`UnsignedRoundTrip`, `SignedRoundTrip`).
- The bytes of a line number program are decoded to the operations that they encode exactly when
  every operand is below that bound (`ProgramRoundTrip`).  The length of an extended opcode is read
  and not used, except for the size of an address, so that the source stays in step exactly when it
  fits the operand (`ExtendedEndsExactly`); opcodes that the standard lets a reader skip are
  exceptions (`UnknownOpcodesThrow`).
- The early exit of `unwindInfo` agrees with the whole table at every program counter of the entry
  exactly when no location turns back into the entry (`EarlyExitIsExact`,
  `UnwindInfoIsTableLookup`); a code alignment of 2^31, as the reader widens it, makes one do so
  (`WrapDefeatsEarlyExit`).
- Unwinding in place is simultaneous exactly when no rule sorts after one for the stack pointer:
  always on x86-64, but not on AArch64 when `sp` has a rule and a register that sorts after it,
  such as `x29`, has one too (`UnwindInfoIsUnwoundSimultaneously`, `SavedStackPointerFails`).
- Overlapping breakpoints taken out in any order restore the text exactly when, at each byte, the
  word taken out last is the one put in first, or the trap byte it had saved is the byte of the
  text (`UndoingRestoresExactly`).  Removal in reverse order of insertion always does
  (`ReverseOrderRestores`); a flush removes in the order in which it inserts (`FlushedTogether`), so
  two x86-64 breakpoints closer than a word come out wrong unless the text is zero where both
  lie (`CloseBreakpointsNeedZeros`).
- A breakpoint that is removed and queued again before a flush is lost, because `queueBreakpoint`
  leaves it in the removal set (`LastRequestWins`).
- Reading children with bases expanded runs past the end of a list exactly when some base, at any
  depth, has no children (`Enumerate`).
- A surrogate pair is joined with `|` where `+` is meant: right exactly when bit 6 of the high
  surrogate is clear (`PairIsCombined`, `Utf16IsRfc2781`).
- Base64 data of length 2 modulo 3 gains a zero byte (`UploadRoundTrip`).
- `jsonEscape` output is accepted by a strict JSON reader exactly when the text has no control
  character other than the five that are escaped (`UnescapeUndoesEscape`).
- `enqueueCommand` inside `cleanup`, between the clearing of the flag and the join, would end the
  process (`EnqueueTerminatesOnlyInsideCleanup`).  It can happen: the console's `k` runs
  `endAllSessions` on the main thread under the manager's mutex, while the server thread may be
  inside `enqueueCommand` under the session's.
- `cleanup` and the worker can wait for each other for ever.  Every caller of `cleanup` holds the
  manager's mutex, and a `ParseCmd` starts by taking it (`lockSession`).  A run ends so exactly
  when, as the flag is cleared, the worker has taken a `ParseCmd` or is past its last look at the
  flag with one in front of the queue (`CleanupDeadlocksExactly`); unless a stop request can still
  come in between it is then certain (`CleanupNeverReturns`).  A compile followed by a cleanup comes
  to it (`DeadlockIsReachable`).
- Once a drain or an exception has ended the worker's loop, flag and thread stay set: commands
  enqueued later never start, and `pendingCommands` stays true until `cleanup`
  (`NothingStartsOnceOver`).
- A line is found exactly when one of its rows in the main source is the first of all rows at its
  address (`KeptRows`); where two rows share an address the second line is lost
  (`SecondRowIsLost`).
- Inside a sequence the address index gives the row that stands for a pc exactly when no row
  reaches into its range and it is the first at its address (`CoveredIsFound`,
  `SequencesAreFoundExactly`).  Between sequences it gives a row all the same, unless pc lies
  outside all rows (`GapIsFilled`), because rows that end a sequence are indexed too
  (`EndRowsAreFound`).

## Model

| member | source | states |
|---|---|---|
| SessionQueue.StepKeepsInv | penguintrace/Session.cpp:116-254 | every step of the worker, of an enqueuer, of a stop, of cleanup or of a state request keeps the invariant: commands accounted for in order, shape of the queue, agreement of flag, thread and cleanup |
| SessionQueue.RunKeepsInv | penguintrace/Session.cpp:116-254 | the invariant holds in every state of every interleaving |
| SessionQueue.EachCommandInOnePlace | penguintrace/Session.cpp:168-254 | each enqueued command is in exactly one of run, failed, in flight, discarded and queued; the commands run are a prefix of those started, and those of the enqueued ones |
| SessionQueue.IdleUntilNextEnqueue | penguintrace/Session.cpp:161-166 | once the queue is empty no command executes until the next enqueue |
| SessionQueue.SerialisesOnlyWhileIdle | server/StateResponseBuilder.cpp:54-79 | a request that serialises the session does so while no command is executing |
| SessionQueue.StopDiscardsOnlyLateArrivals | penguintrace/Session.cpp:236-250 | a stop discards exactly the commands enqueued after the worker's last emptiness test, and everything before it has run |
| SessionQueue.AtMostOneStartsAfterClear | penguintrace/Session.cpp:116-136 | after cleanup clears taskQueueRunning at most one more command starts |
| SessionQueue.EnqueueTerminatesOnlyInsideCleanup | penguintrace/Session.cpp:175-178 | resetting a joinable thread happens exactly if an enqueue falls between the clearing of the flag and the join of a thread |
| SessionQueue.Session.EnqueueCommand | penguintrace/Session.cpp:168-187 | the fields become those of the machine's enqueue step, with the invariant kept outside cleanup |
| SessionQueue.Session.EnqueueStop | penguintrace/Session.h:59-63 | the stop request is set and nothing else changes |
| SessionQueue.Session.PendingCommands | penguintrace/Session.cpp:161-166 | the answer is whether the queue holds anything; false means nothing is in flight |
| SessionQueue.Session.TakeTask | penguintrace/Session.cpp:212-220 | the front is moved out and its empty entry stays queued |
| SessionQueue.Session.PopTask | penguintrace/Session.cpp:227-235 | the entry of the task that ran is popped and the flag is read in the same region |
| SessionQueue.Session.TestQueue | penguintrace/Session.cpp:236 | the unlocked test changes nothing but the worker's place |
| SessionQueue.Session.TestStopRequest | penguintrace/Session.cpp:238-239 | the worker goes on to drain exactly if a stop was requested |
| SessionQueue.Session.DrainQueue | penguintrace/Session.cpp:241-248 | the queue is emptied, removal is requested and the loop ends |
| SessionQueue.Session.CleanupClear | penguintrace/Session.cpp:118-121 | the flag is cleared under the lock |
| SessionQueue.Session.CleanupReset | penguintrace/Session.cpp:123-128 | the thread is gone once the join has returned |
| SessionQueue.Session.CleanupDrop | penguintrace/Session.cpp:130-135 | the leftovers are discarded, removal is requested and every command of the epoch is run, failed or discarded |
| SessionProgress.JoinIsReached | penguintrace/Session.cpp:123-126 | while cleanup waits to join, the worker's steps decrease a bound, nothing else moves it, and until it has ended one of them is possible exactly unless the two wait for each other |
| SessionProgress.CleanupDeadlocksExactly | penguintrace/SessionManager.cpp:131-133 | from the clearing of the flag some run ends in a deadlock before the join exactly when the worker has taken a ParseCmd, or is past its last look at the flag with one in front of the queue |
| SessionProgress.CleanupNeverReturns | penguintrace/Session.cpp:116-136 | in such a state the join is never reached on any run, unless a stop request can still come in between |
| SessionProgress.DeadlockIsForEver | penguintrace/SessionCmd.cpp:172-174 | no step ends the deadlock |
| SessionProgress.DeadlockIsReachable | penguintrace/SessionManager.cpp:55-68 | ten steps from the start, a compile and then a cleanup, reach it |
| SessionProgress.EachCommandIsReached | penguintrace/Session.cpp:203-254 | while no cleanup, stop or exception disturbs it, the worker takes each queued command after a bounded number of its own steps |
| SessionProgress.WorkerCanGoOn | penguintrace/Session.cpp:203-254 | one of those steps is possible, or the request that holds the session's mutex can give it back |
| SessionProgress.DrainAndThrowEnd | penguintrace/Session.cpp:189-248 | a drain or an exception ends the worker's loop and leaves the flag and the thread set |
| SessionProgress.NothingStartsOnceOver | penguintrace/Session.cpp:168-201 | after a drain or an exception no command starts until cleanup's join, and each one enqueued stays in the queue |
| SessionProgress.StopIsHonoured | penguintrace/Session.cpp:236-250 | over every run a stop request is never forgotten, and the next look at it ends in a drain |
| MapWalk.NextMapNodeAddr | dwarf/DIEPrint.cpp:368-418 | on any memory the loops compute the functions Descend and Climb, with 0 for an unreadable word and the cut at MaxLoops |
| MapWalk.MapPrinter | dwarf/DIEPrint.cpp:336-366 | on any memory the loop shows the listing that the node function defines, or nothing |
| MapWalk.DescendFindsFirst | dwarf/DIEPrint.cpp:378-389 | the loop down left links reaches the first node of a subtree exactly when the spine is short enough |
| MapWalk.ClimbFindsTurn | dwarf/DIEPrint.cpp:393-409 | the loop up right links ends at the node after the whole subtree exactly when few enough right links lie above |
| MapWalk.NextNodeIsSuccessor | dwarf/DIEPrint.cpp:368-418 | from every node the walk yields the in-order successor, or the header after the last node, exactly when it follows at most 257 links |
| MapWalk.NextNodeFromBase | dwarf/DIEPrint.cpp:336-342 | read from the header minus the parent offset, the walk starts at the first node, or the header of an empty map |
| MapWalk.NextNodeFromHeader | dwarf/DIEPrint.cpp:357-359 | the step past the end still yields a pointer, so the listing is not thrown away |
| MapWalk.MapPrinterShowsInOrder | dwarf/DIEPrint.cpp:336-366 | the printer shows the elements in order, cut at 257, each at the place of its value in its node |
| MapWalk.RedBlackIsShallow | dwarf/DIEPrint.cpp:41-41 | no walk over a red-black tree of distinct addresses is cut short by MaxLoops |
| MapWalk.NextNodeIsReadable | dwarf/DIEPrint.cpp:368-418 | on any memory a word that reads as all ones is never taken for a node |
| Frame.UnwindInfo | dwarf/Frame.cpp:486-588 | the loop yields the rules of the early-exit interpreter; the location never passes pc and the closing assertion holds |
| Frame.InterpretStopsAt | dwarf/Frame.cpp:497-578 | the interpreter returns the last row of the full table before the first one past pc |
| Frame.EarlyExitIsExact | dwarf/Frame.cpp:507-518 | early exit and scan of the whole table find the same row at every pc up to an end exactly when no location turns back to one up to that end |
| Frame.TableIsOrdered | dwarf/Frame.cpp:500-519 | locations never decrease while the program stays inside the address space |
| Frame.UnwindInfoIsTableLookup | dwarf/Frame.cpp:486-588 | the interpreter's row is the last of the full table whose location is at most pc, for all pcs of the entry, exactly when no location turns back into the entry; none does inside the address space |
| Frame.WrapDefeatsEarlyExit | dwarf/Frame.cpp:302-508 | an entry that the readers can yield, with a code alignment of 2^31 widened to 64 bits, is read wrongly at a pc it contains |
| Frame.InterpretIsWellFormed | dwarf/Frame.cpp:527-567 | every rule set built has a value-offset rule for the frame address and offset rules for named registers |
| Frame.DefCfaIsRegisterAndOffset | dwarf/Frame.cpp:538-567 | def_cfa equals def_cfa_register and def_cfa_offset in either order, wherever a frame address rule exists (section 6.4.2.2) |
| Frame.AdvanceMovesLocation | dwarf/Frame.cpp:500-519 | by opcode number, an advance ends the row and moves the location by its operand times the code alignment; the interpreter goes on only up to pc |
| Frame.OthersStayInRow | dwarf/Frame.cpp:520-577 | any other instruction changes the rules of the row or fails |
| CfaMeaning.EveryByte | dwarf/Frame.cpp:56-145 | for each byte, by its number in figure 40, the operands that are read, or the failure; a byte that names no instruction is a nop |
| CfaMeaning.AdvanceBytesMoveLocation | dwarf/Frame.cpp:114-125 | from the bytes: 0x02, 0x03 and 0x04 take one, two and four bytes, lowest first, and move the location by that number of code alignments, 0x40 to 0x7f by the low six bits |
| CfaMeaning.BytesGiveCaller | dwarf/Frame.cpp:486-588 | from the bytes: after any sequence of 0x0c, 0x0d, 0x0e, 0x80 to 0xbf and 0x00 the frame address is the last register plus the last offset, a saved register is the word at it plus its last factored offset, and no other register changes (sections 6.4.2.2 and 6.4.2.3) |
| CfaMeaning.UsualEntry | dwarf/Frame.cpp:486-588 | the bytes 0c 07 08 90 01 give the caller rsp plus 8 and the word at rsp, less one, as rip |
| Unwind.DefCfaGivesFrameAddress | dwarf/Frame.cpp:538-546 | after def_cfa the frame address is the old value of the register plus the offset |
| Unwind.OffsetGivesSavedWord | debug/Stepper.cpp:705-748 | after an offset instruction the caller's register is the word at the frame address plus the factored offset, the program counter that word less one instruction, and no other register of the caller changes |
| Cfa.X86RegisterNumbers | x86_64/Arch.cpp:33-57 | the number of each register by name |
| Cfa.A64RegisterNumbers | aarch64/Arch.cpp:33-47 | the name is x and the number in decimal |
| Unwind.Unwinder.UnwindRegs | debug/Stepper.cpp:645-752 | the loop over the rules in key order is the sequential update, and the answer says whether sp, pc and frame base were recovered |
| Unwind.UnwindsExactly | debug/Stepper.cpp:690-738 | unwinding succeeds exactly when every rule is same value, offset or value offset with an integer, and the frame address is not a saved word |
| Unwind.LeqMeans | debug/Stepper.cpp:669-669 | the order in which a map of strings is iterated: the first difference decides, and a prefix comes first |
| Unwind.FrameAddressComesFirst | dwarf/Frame.cpp:496-496 | the frame address rule is applied first because its key sorts first |
| Unwind.SequentialAfterFrameAddress | debug/Stepper.cpp:669-749 | after it, every register with a rule has its value from the frame address, unless it sorts after a stack pointer rule, and no other register changes |
| Unwind.InPlaceIsSimultaneous | debug/Stepper.cpp:669-749 | the in-place update gives every register the value that the rules mean on the old registers |
| Unwind.StackPointerRuleMisleads | debug/Stepper.cpp:705-720 | a register that sorts after a saved stack pointer is read relative to the restored one |
| Unwind.AgreesExactly | debug/Stepper.cpp:669-749 | in-place and simultaneous update agree on every memory exactly when no rule sorts after one for the stack pointer |
| Unwind.UnwindInfoIsUnwoundSimultaneously | debug/Stepper.cpp:656-752 | the rules of unwindInfo are unwound as they mean exactly under that condition, and always on x86-64 |
| Unwind.SavedStackPointerFails | debug/Stepper.cpp:669-749 | an AArch64 entry that saves sp and then x29 is unwound wrongly on some memory, whatever the registers |
| Leb128.Stream.GetByte | dwarf/Common.h:120 | past the end a byte reads as 0xff |
| Leb128.Stream.ExtractULEB128 | dwarf/Common.h:111-133 | the loop computes the recursive reader and leaves the stream behind its last byte |
| Leb128.Stream.ExtractSLEB128 | dwarf/Common.h:135-162 | the same for signed numbers, with sign extension |
| Leb128.ReadsAtMostElevenBytes | dwarf/Common.h:118-125 | either reader asks for at most eleven bytes, whatever the stream |
| Leb128.FailsExactly | dwarf/Common.h:111-162 | overflow is thrown exactly when eleven bytes have bit 7 set, and the shift is undefined exactly when five but not eleven do |
| Leb128.UnsignedDigits | dwarf/Common.h:111-133 | an unsigned encoding is the shortest chain of bytes whose low seven bits are the digits of the number in base 128 |
| Leb128.SignedDigits | dwarf/Common.h:135-162 | a signed encoding is the two's complement in seven bits a byte, with the sign in bit 6 of the last |
| Leb128.UnsignedRoundTrip | dwarf/Common.h:111-133 | the encoding of v is consumed exactly, and read as v exactly when v is below 2^31 |
| Leb128.SignedRoundTrip | dwarf/Common.h:135-162 | the encoding of i is consumed exactly, and read as i exactly when i fits in 32 bits |
| CfaCodec.ReadInstructions | dwarf/Frame.cpp:353-363 | the loop reads instructions up to the end offset, or fails past it |
| CfaCodec.ReadsToTheEnd | dwarf/Frame.cpp:353-363 | it succeeds only when the last instruction ends at the end of the entry, inside the section |
| CfaCodec.ParseFollowsTable | dwarf/Frame.cpp:56-145 | the branches of parseCFA read the operands of the encoding table of section 7.23 |
| CfaCodec.OperandRoundTrip | dwarf/Frame.cpp:81-133 | an encoded operand is read back, and its bytes consumed, exactly when it survives the 32-bit shift |
| CfaCodec.InstructionRoundTrip | dwarf/Frame.cpp:56-145 | an encoded instruction is read back and consumed exactly when its operands survive |
| CfaCodec.ListRoundTrip | dwarf/Frame.cpp:445-455 | a list of instructions is read back from its concatenated encodings exactly when all operands survive |
| LineMachine.LineStateMachine.Advance | dwarf/LineProgram.h:310-316 | the registers after an operation advance |
| LineMachine.LineStateMachine.SpecialOp | dwarf/LineProgram.h:382-397 | a special opcode yields the row and the registers of its decoded step |
| LineMachine.LineStateMachine.AppendCopy | dwarf/LineProgram.h:398-403 | the row is the old state and four registers are reset |
| LineMachine.LineStateMachine.Finish | dwarf/LineProgram.h:404-410 | the row ends the sequence and the registers are initial again |
| LineMachine.LineStateMachine.Execute | dwarf/Info.cpp:623-717 | each operation has the effect and the row of section 6.2.5 |
| LineMachine.OpIndexStaysInRange | dwarf/LineProgram.h:310-316 | op_index is below maximum_operations_per_instruction in every row of every run |
| LineMachine.AdvanceComposes | dwarf/LineProgram.h:310-316 | advancing by a and then b is advancing by a + b |
| LineMachine.ExpansionKeepsRun | dwarf/LineProgram.h:382-397 | a whole program with its special opcodes spelt out as advance_pc, advance_line and copy, and const_add_pc as the advance of special opcode 255, ends in the same registers with the same rows |
| LineMachine.PositionIsTotalOperations | dwarf/Info.cpp:674-717 | after any mixture of opcodes that do not set it, the address depends only on the total of operations |
| LineMachine.SpecialOpcodeFormula | dwarf/LineProgram.h:382-397 | section 6.2.5.1: the opcode computed for a line increment and an operation advance appends the row after that increment and that advance |
| LineMachine.ConstAddPcFormula | dwarf/Info.cpp:700-704 | const_add_pc advances by the operation advance of opcode 255 |
| LineMachine.AdvanceMeans | dwarf/LineProgram.h:310-316 | an advance to q whole instructions and s operations moves the address by q minimum lengths and leaves op_index s |
| LineMachine.OperationsMean | dwarf/LineProgram.h:317-410 | every other operation sets its own registers only, and which operations append a row |
| LineCodec.ProgramRoundTrip | dwarf/Info.cpp:608-719 | any operations, encoded as sections 6.2.5 and 7.22 say, are decoded from their concatenated encodings without an exception exactly when every operand survives the 32-bit shift |
| LineCodec.OpRoundTrip | dwarf/Info.cpp:610-667 | one operation is read back, and its bytes consumed, exactly when its operand survives |
| LineCodec.OperandBytesMean | dwarf/Info.cpp:679-713 | from the bytes to the registers, by number: 0x02, 0x03, 0x04, 0x05 and 0x0c |
| LineCodec.PlainBytesMean | dwarf/Info.cpp:676-710 | from the bytes to the registers and rows, by number: 0x01, 0x06, 0x07, 0x08, 0x0a and 0x0b |
| LineCodec.OtherBytesMean | dwarf/Info.cpp:619-640 | the same for 0x09 and the extended opcodes 0x01, 0x02 and 0x04 |
| LineCodec.ExtendedEndsExactly | dwarf/Info.cpp:623-644 | reading goes on where an extended opcode says that it ends exactly when its length fits its operand |
| LineCodec.UnknownOpcodesThrow | dwarf/Info.cpp:641-717 | opcodes without a case throw, although their lengths are known |
| LineIndex.Info.AddLineStateMachine | dwarf/Info.cpp:727-732 | the index keeps the first row of each address |
| LineIndex.Info.ParseLineProgram | dwarf/Info.cpp:602-732 | the loop decodes and executes the bytes of a program; its rows are appended and indexed, also those before an exception |
| LineIndex.RowsAreLocated | dwarf/Info.cpp:727-732 | each row becomes a location with the row's own address, file name, line, column and flags |
| LineIndex.Info.BuildLineIndex | dwarf/Info.cpp:195-205 | the line index holds the lowest-address main-source entry of each line of the address index |
| LineIndex.Info.LocationByPC | dwarf/Info.cpp:210-233 | the ordered lookup equals a linear scan of the rows for the greatest address at most pc, and finds nothing past the last one |
| LineIndex.Info.ExactLocationByPC | dwarf/Info.cpp:235-248 | the first row emitted at pc, if it is of the main source or there is none |
| LineIndex.Info.ExactLocationByLine | dwarf/Info.cpp:250-264 | a location is found exactly if some main-source row of the line has no earlier row at its address, and it is the lowest of those |
| LineIndex.KeptRows | dwarf/Info.cpp:727-732 | a line can be found exactly when one of its main-source rows is the first of all rows at its address |
| LineIndex.LowestIsFound | dwarf/Info.cpp:195-205 | what is found is at the lowest address of all rows of the line exactly when the first row at that address is one of them |
| LineIndex.SecondRowIsLost | dwarf/Info.cpp:727-732 | with two lines at one address, the second has a row and cannot be found |
| LineIndex.Info.NextLinePC | dwarf/Info.h:94-105 | the least address above pc by a linear scan, or 0 |
| LineIndex.ScanAtMostMeaning | dwarf/Info.cpp:210-233 | the scan finds the first row of the greatest address at most pc |
| LineIndex.ScanAboveMeaning | dwarf/Info.h:94-105 | the scan finds the least address above pc |
| LineSequences.CoveredIsFound | dwarf/Info.cpp:210-233 | for a pc inside a sequence (section 6.2.5) the index gives the row that stands for it exactly when no row lies between and it is the first at its address |
| LineSequences.SequencesAreFoundExactly | dwarf/Info.cpp:210-233 | for every pc inside a sequence the address found is right exactly when no row reaches into the range of another |
| LineSequences.GapIsFilled | dwarf/Info.cpp:223-229 | for a pc in no sequence the index gives nothing exactly when it lies below or above all rows |
| LineSequences.EndRowsAreFound | dwarf/Info.cpp:625-627 | padding after a function gives the row that ends it, and where another function follows at once that row hides its first row |
| DieTree.InfoParser.ParseEntry | dwarf/Info.cpp:413-572 | one entry closes, adds or descends into a DIE, or fails on a missing abbreviation |
| DieTree.InfoParser.ParseUnit | dwarf/Info.cpp:411-575 | the loop over the entries of a unit is the fold of that step |
| DieTree.InfoParser.ParseInfo | dwarf/Info.cpp:399-580 | the loop over units continues from the same current DIE |
| DieTree.ParseForest | dwarf/Info.cpp:411-575 | the serialisation of any forest is added below the current DIE, which is current again afterwards |
| DieTree.ParseTops | dwarf/Info.cpp:418-425 | extra null entries at the top level change nothing |
| DieTree.ParseInfoRebuildsForest | dwarf/Info.cpp:395-581 | for all units together every DIE stands at its offset with its parent, tag and ordered children, the root holds the top-level DIEs in order, nothing else is there, and the current DIE is the root |
| DieTree.ParsesExactly | dwarf/Info.cpp:411-575 | parsing fails exactly on an entry whose code is not null and not in the table of its unit |
| DieIterator.Iterator.Value | dwarf/DIETraversal.cpp:166-187 | value gives the head of what is left, opening bases on the way, or reads past the end of a list exactly when the first children lead down to an empty one |
| DieIterator.Iterator.Next | dwarf/DIETraversal.cpp:148-164 | next drops that head, and leaves a finished base |
| DieIterator.Iterator.Done | dwarf/DIETraversal.cpp:143-146 | done exactly when nothing is left |
| DieIterator.Enumerate | dwarf/DIETraversal.cpp:143-187 | value and next until done terminate and enumerate the flattened children exactly when every expanded base has children, and otherwise read past the end of a list |
| DieIterator.FlattenIgnoresDepth | dwarf/DIETraversal.cpp:180-184 | the flattening, and whether every base has children, do not depend on the depth bound that termination uses |
| DieIterator.HeadParts | dwarf/DIETraversal.cpp:166-187 | an import is followed, an inheritance DIE gives way to the children of its base if these are asked for, and any other child stays |
| Breakpoints.Stepper.InsertBreak | debug/Stepper.cpp:893-921 | the word is saved and replaced, once, and read back it is the breakpoint word of the machine |
| Breakpoints.Stepper.RemoveBreak | debug/Stepper.cpp:987-1001 | the saved word is written back and forgotten |
| Breakpoints.Stepper.QueueBreakpoint | debug/Stepper.cpp:923-959 | an address, or the address of a line, is queued exactly if it lies in a memory range; the address found for a queued line leads back to it, so the line is among those reported |
| Breakpoints.Stepper.RemoveBreakpoint | debug/Stepper.cpp:961-985 | the address leaves the pending additions and joins the removals |
| Breakpoints.Stepper.FlushBreakpoints | debug/Stepper.cpp:320-336 | the keys become installed and added less removed, in the order of the sets |
| Breakpoints.Stepper.AddBreakpoints | server/Serialize.cpp:198-234 | the addresses in order and the set of lines they lead back to |
| Breakpoints.InsertOverlays | debug/Stepper.cpp:893-921 | inserting a word apart from the others keeps memory an overlay of the text |
| Breakpoints.RemoveOverlays | debug/Stepper.cpp:987-1001 | removing any word keeps memory an overlay of the text |
| Breakpoints.AnyOrderRestores | debug/Stepper.cpp:987-1001 | with words apart, removal in any order restores the text |
| Breakpoints.ReverseOrderRestores | debug/Stepper.cpp:893-1001 | however words overlap, removal in reverse order of insertion restores memory |
| Breakpoints.FirstInFirstOut | debug/Stepper.cpp:987-1001 | two overlapping words removed in insertion order leave the first trap's bytes where they overlap, and nothing else wrong |
| Overlap.ByteAfterUndoing | debug/Stepper.cpp:893-1001 | what each byte of memory is after any words are put in and taken out in any order |
| Overlap.UndoingRestoresExactly | debug/Stepper.cpp:893-1001 | for any words, insertion order and removal order, everything is as before exactly when every byte's last-removed word was inserted first or had saved the byte of the text |
| Overlap.FlushedTogether | debug/Stepper.cpp:320-336 | words put in by one flush and taken out by another restore everything exactly when, wherever words meet, the trap of the second-highest has the byte of the text |
| Overlap.CloseBreakpointsNeedZeros | debug/Stepper.cpp:320-336 | two x86-64 breakpoints closer than a word, queued together and removed together, restore the text exactly when it is zero where both lie |
| Breakpoints.FlushKeys | debug/Stepper.cpp:320-336 | after a flush the breakpoints are the installed and the added ones, less the removed |
| Breakpoints.LastRequestWins | debug/Stepper.cpp:923-985 | a flush obeys the last request for an address exactly unless it was queued after a removal; without a request the breakpoint stays as direct insertions and hits have left it |
| Breakpoints.RequeuedBreakpointIsLost | debug/Stepper.cpp:923-985 | an installed breakpoint that is removed and queued again before a flush is gone after it |
| Overlap.EveryRunFollowsHistory | debug/Stepper.cpp:320-563 | over every run, however words overlap, each byte of memory is the trap's of the latest word put in there, or, where that word was taken out, what stood before it was put in |
| Breakpoints.EveryRunOverlaysText | debug/Stepper.cpp:320-563 | over every run of requests, flushes, direct insertions and hits, while the addresses are 8 bytes apart, memory is the text with exactly the installed words over it |
| StringReader.TakeUtf8 | dwarf/DIEValue.cpp:555-612 | the front of the queue gives a whole character, asks for more, or stops |
| StringReader.TakeUtf16 | dwarf/DIEValue.cpp:652-713 | the same for 16-bit units and pairs |
| StringReader.TakeUtf32 | dwarf/DIEValue.cpp:752-771 | the same for 32-bit units |
| StringReader.TryGetString | dwarf/DIEValue.cpp:526-621 | word-at-a-time reading shows what unit-at-a-time reading shows, for every memory and limit, and terminates |
| StringReader.TextIsBytes | dwarf/DIEValue.cpp:547-550 | the 8-bit text is the bytes of memory, and the 16- and 32-bit units are the little-endian values of two and four bytes in a row |
| StringReader.BytesAreShown | dwarf/DIEValue.cpp:526-621 | what is shown is read from those bytes in the order of their addresses |
| StringReader.PlainTextIsShown | dwarf/DIEValue.cpp:526-621 | plain text with a NUL behind it is shown as it stands |
| StringReader.CharactersByBits | dwarf/DIEValue.cpp:562-566 | the leading bits of each byte or unit decide how many make a character |
| StringReader.ShowsLongestPrefix | dwarf/DIEValue.cpp:542-616 | the bytes shown are the longest run of correct sequences before a NUL, a malformed one or the limit |
| StringReader.PairIsCombined | dwarf/DIEValue.cpp:692-692 | the pair is joined as section 2.2 of RFC 2781 says exactly when bit 6 of the high surrogate is clear |
| StringReader.Utf16IsRfc2781 | dwarf/DIEValue.cpp:623-722 | a whole text is read as RFC 2781 says exactly when all its pairs are |
| StringReader.WideTextIsEncoded | dwarf/DIEValue.cpp:724-779 | what is shown for wide text is the encoding of its code points, none of them zero or too large |
| StringReader.EncodedIsWhole | common/StreamOperations.cpp:58-88 | each encoded character is one whole character for tryGetString |
| StringReader.ShownTextRereads | dwarf/DIEValue.cpp:526-621 | encoded text followed by a NUL is read back by tryGetString as it stands |
| StringReader.ShownTextIsShownAgain | dwarf/DIEValue.cpp:526-779 | the bytes shown for 16- or 32-bit text, stored with a NUL, are shown again by the 8-bit form under the same limit |
| Utf8.RoundTrip | common/StreamOperations.cpp:58-88 | a code point survives encoding and RFC 3629 decoding exactly when it is a scalar value |
| Utf8.TextRoundTrip | common/StreamOperations.cpp:58-88 | text of scalar values is decoded to itself |
| Utf8.DecodedIsEncoded | common/StreamOperations.cpp:58-88 | whatever RFC 3629 reads as a character is the encoding of that character |
| TextTools.SplitString | common/Common.cpp:83-97 | the loop splits at the leftmost occurrences that do not overlap |
| TextTools.JoinOfSplit | common/Common.cpp:83-97 | joining the pieces with the delimiter gives the text back |
| TextTools.PiecesAreClean | common/Common.cpp:83-97 | no piece holds the delimiter |
| TextTools.ReplaceAll | common/Common.cpp:99-109 | replacing in place is splitting at the pattern and joining with the replacement |
| TextTools.SplitAtChar | common/Common.cpp:99-109 | for a single character it is a character-wise substitution |
| TextTools.JsonEscape | common/Common.cpp:111-121 | the seven passes give the single-pass escape |
| TextTools.PassesAreOne | common/Common.cpp:111-121 | substituting in turn is one pass over the characters |
| TextTools.UnescapeUndoesEscape | common/Common.cpp:111-121 | reading a JSON string (section 7 of RFC 8259) undoes it: always when lenient, and when strict exactly if every control character has an escape |
| TextTools.StrictlyReadExactly | common/Common.cpp:111-121 | a strict reader gets the text back exactly when its control characters are backspace, tab, line feed, form feed and carriage return |
| Base64.UploadCmd.Run | penguintrace/SessionCmd.cpp:108-165 | the failure reported and the bytes written, up to the first group with an unknown character |
| Base64.Decode | penguintrace/SessionCmd.cpp:146-162 | the inner loops write the bytes that four positions give |
| Base64.UploadRoundTrip | penguintrace/SessionCmd.cpp:146-162 | an encoded upload (section 4 of RFC 4648) is accepted and gives the bytes exactly when their number is not 2 modulo 3, and otherwise one zero byte more |
| Base64.PositionIsRank | penguintrace/SessionCmd.cpp:125-131 | a character is found in the map exactly when it belongs to the alphabet of RFC 4648, at its place in it |
| Base64.WrittenStops | penguintrace/SessionCmd.cpp:125-144 | a group with a character outside the alphabet ends the file |

## Left out

- Foreign calls: ptrace, waitpid, fork, pipes, mounts, sockets, the web server, the compiler, LLVM, libclang and demangling.  Only peek and poke of a word are kept, as operations on memory.
- `StepCmd::run` and the stepping loop: its progress depends on stop events of the kernel.  The direct calls of `insertBreak` and `removeBreak` in `firstStep` and `allStep` are changes that may come at any time, at any mapped or installed address.
- Logging, configuration, time stamps, hex formatting and the user interface.
- Exceptions in the worker other than one thrown by a command.  A command that has started is assumed to return or throw; the wait of a `ParseCmd` for `lockSession` is before that start.
- Overlap of `cleanup` with `enqueueCommand` on the same session: it is assumed not to happen, though no lock prevents it, and `EnqueueTerminatesOnlyInsideCleanup` says what it would do.
- The moments inside `lockSession`: a request or a `ParseCmd` gets the manager's and the session's mutex in one step, once both are free.  Sessions other than this one, which share the manager's mutex, are not modelled.
- SessionQueue.Session.EnqueueCommand: does not model the modification time; the destruction of a joinable thread is the flag `terminated`.
- Weak memory: the unlocked `empty()` is one atomic step, as sequential consistency would make it.
- The list, vector, string, pair, array and hash map printers, and the lookup of member offsets in `mapPrinter`: the walk takes the offsets, with the right link at left plus parent offset, as parameters.
- MapWalk.MapPrinter: does not model the text of the values, nor the lookup of the member offsets.
- MapWalk.MapPrinterShowsInOrder: does not model the text of the values, only the addresses at which they are printed.
- `getAttribute`, expression evaluation and value printing of DIEs; in `DieTree` entries are tokens with an offset and a code, their attributes are not parsed, and DIEs are named by distinct offsets, so that pointers and their ownership are not captured.
- DieTree.InfoParser.ParseEntry: does not parse the attributes of an entry.
- DieTree.InfoParser.ParseUnit: does not read the unit header or the bytes of the entries.
- DieTree.InfoParser.ParseInfo: does not read the bytes of the section; units are lists of entries.
- DieTree.ParseForest: does not model the unit headers; a unit is the list of its entries, and an assertion on the version or an abbreviation table is not reached.
- DieIterator.Enumerate: does not model `delete`; a nested iterator is dropped.  Inheritance is required to refer to a type and not to be cyclic; the source would follow a null pointer or a cycle.
- LineIndex.Info.ParseLineProgram: does not model the header of a line number program nor its file table; the name of a file number is a parameter, which `DW_LNE_define_file` does not change.
- LineCodec.ProgramRoundTrip: does not say what a number is that the end of the section cuts off; the source leaves it undefined, and no row is appended after it.
- Lazy parsing in `Info`: the lookups are modelled once the tables have been parsed.
- Restore, remember and restore state, expressions and the other call frame opcodes that `unwindInfo` rejects are the error `Unhandled`; a missing frame address rule, which the source asserts against or reads past the end of the map for, is the error `NoCfaRule`.
- CfaCodec.ListRoundTrip: does not model `DW_CFA_set_loc`, which stops on an assertion in the source; it is not encodable here.
- Leb128.UnsignedRoundTrip: shifts by less than 32 wrap as on the supported compilers; a shift by 32 or more, undefined in the source, is the result `Undefined`.
- Unwind.Unwinder.UnwindRegs: does not model the search for the frame entry, and reading a register that was never set does not add it to the map.
- Breakpoints.Stepper.InsertBreak: does not model a failing poke; the address is required to be mapped.
- StringReader.TryGetString: does not model the quotation marks and the address shown behind 8-bit text; one method with the unit size as a parameter stands for the three of the source.
- TextTools.UnescapeUndoesEscape: does not model the `\u` escape of JSON, which `jsonEscape` never writes.
- Base64.UploadCmd.Run: does not model the words of the two failure messages, which are the constructors `BadLength` and `BadCharacter`, nor a file that cannot be opened.
- The disassembly tiling loop, `split` on a character and `urlDecode`: the first rests on how many bytes the disassembler takes, the other two feed no other part of the model.
