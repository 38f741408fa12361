# KDebugger, verified core

A Dafny model of the two stateful parts of KDebugger, a Linux debugger library, with proofs of what they
compute.

**The DWARF engine** (`src/dwarf.cpp`, `src/stack.cpp`) reads bytes lazily through cursors and iterators.
Each reader is modelled as the object it is, proved equal to a function of the bytes, and that function is
then related to an independent meaning.

- `Cursor.dfy`: the cursor, LEB128 and attribute forms. `RangeList.dfy`: range lists with base selection.
- `Die.dfy`, `DieTrees.dfy`: entries in pre-order and the iterator over children. `DieAddresses.dfy`: the
  addresses of an entry. `EntryNames.dfy`: the name of an entry, through references to others.
  `MeantNames.dfy`: the name that its bytes give it, readable or not.
  `FunctionIndex.dfy`: the function index and the inline stack. `IndexCompleteness.dfy`: when building it fails,
  and when it is complete. `UnitLoading.dfy`: what loading a file needs of the root entries.
- `LineTable.dfy`, `LineEncoding.dfy`: the line-number machine, its batch reading and an encoder.
  `LineStandard.dfy`: the machine of section 6.2 of DWARF 4 and exactly when the debugger's agrees with it.
- `EhFrame.dfy`: pointers and the `.eh_frame_hdr` search. `Cfi.dfy`: the call-frame interpreter.
  `CfiTables.dfy`: instruction lists, unwind tables, and the two ways of storing a rule. `CfiStandard.dfy`: a
  decoder of its own for the instructions of section 6.4.2 of DWARF 4. `CfiFollows.dfy`: exactly which of them
  the debugger follows. `CfiFrames.dfy`: programs and whole frames. `CfiEncoding.dfy`: the encodings that the
  standard's decoder inverts. `CfiMeaning.dfy`: what a written frame says of the CFA and of each register.
  `UnwindRules.dfy`: applying rules to registers in any order, and what of it reaches the tracee.
  `UnwoundRegisters.dfy`: what the registers then hold. `Stack.dfy`, `ShownFrames.dfy`, `StackFunctions.dfy`:
  backtraces, what each frame shows, and what the debug information makes of them.

**The stop engine** (`src/process.cpp`, `src/breakpoint_site.cpp`,
`include/libkdebugger/stoppoint_collection.hpp`) is modelled with the tracee and the kernel as state: a memory
map, a register file for each thread, and undelivered signals.

- `Memory.dfy`: page-wise reads and word-wise writes. `Breakpoints.dfy`, `BreakpointRuns.dfy`,
  `StopEngine.dfy`: sites as an overlay on memory, over whole runs. `SiteMarks.dfy`: which sites are enabled, by
  the operations and their results alone.
- `DebugRegisters.dfy`, `HardwareStops.dfy`, `Watchpoints.dfy`: DR7, the four-slot allocator over all threads,
  and the watchpoints that share it.
- `PendingStop.dfy`, `SyscallStops.dfy`: the pending-SIGSTOP and the syscall entry/exit protocols.

`Words.dfy` holds what they share. Check everything with `dafny verify dfyconfig.toml`.

## How to read the model

Every failure is a value of `Result`: a thrown error, and also a read past the data, a shift by 64 bits or
more, or an access that C++ leaves undefined. Words wrap at 64 bits where the source computes in 64 bits. An
unordered container is walked in an order the model leaves open. Misspelled identifiers are read as the
obvious target.

Where the code departs from the standard or from its own intention, the model follows the code, and a lemma
says exactly when that matters:

- `emplace` never replaces a call-frame rule: `CfiTables.AgreesExactly`, `CfiTables.RestoreNeverRestores`.
- `DW_CFA_def_cfa_register` has no case and its operand is run as instructions:
  `CfiFollows.DefCfaRegisterExactly`, `CfiFrames.FramePointerFails`.
- `sleb128` extends the sign of one-byte numbers only: `Cursors.SlebRoundTripExactly`. For the call-frame
  instructions that read one, `CfiStandard.FactoredExactly`; all departures of the interpreter together:
  `CfiFollows.FollowsExactly`, `CfiFrames.FollowsProgramExactly`.
- Of the line-number instructions, `advance_pc` takes a signed operand, `set_file` sets the column,
  `advance_line` and `set_column` are rejected, `set_isa` leaves its operand in place to be run, and extended
  opcodes that the standard does not name are rejected: `LineStandard.FollowsExactly`,
  `LineStandard.AgreesExactly`. A program whose last instruction emits no row runs off the data:
  `LineTables.IteratedIsBatch`.
- `skip_form` rejects `addr`, `data8`, `ref8`, `ref_sig8` and `flag_present`, and `as_reference` rejects
  `ref_udata`: `Cursors.SkipFormExactly`, `Dies.CrossKidsExactly`. `as_reference` has a case that reads `ref8`
  as a LEB128 number, which no entry that can be parsed reaches.
- So no parsed entry has an address, and a file with a root entry that has one does not load:
  `UnitLoading.AddressedRootFails`, `UnitLoading.IndexedHasNoAddress`. For every entry with a low address of
  another form and no ranges `contains_address` throws: `DieAddresses.ContainsExactly`, `FunctionIndex.LowAddressThrows`. The lookups of a backtrace throw with
  it, and `unwind` can leave the frames of the last stop, or a broken-off list: `Stacks.FramesAreNewExactly`,
  `StackFunctions.FramesAreStale`, `StackFunctions.NoFramesWithALowRoot`.
- Names are followed through references without a guard: `EntryNames.ReturnsExactly`.
- A function index whose building throws is kept and used from then on: `FunctionIndex.QueriesExactly`,
  `IndexCompleteness.IndexIsCompleteExactly`.
- `write_user_area` pokes the main thread whichever thread it is given:
  `HardwareStops.ArmedInEveryThreadExactly`. Every stop reads a thread's registers back, so the cached DR7 of
  another thread becomes zero, and its slots are given out again: `HardwareStops.EveryRunExactly`,
  `HardwareStops.SlotIsGivenAgain`. A write that the kernel refuses has changed the cached register by then:
  `HardwareStops.SetRefusedExactly`.
- `registers::write` reaches the tracee even when `commit` is false: `UnwindRules.PushedExactly`,
  `UnwindRules.TraceeStackPointerMoves`.
- Clearing or arming slot 3 clears the upper half of DR7: `DebugRegisters.ClearedSlot`.
- The guard of `watchpoint::disable` is the wrong way round, so no watchpoint ever gives its slot back:
  `Watchpoints.DisableExactly`, `Watchpoints.SlotsNeverComeFree`.
- `handle_signal` names `pending_sigstop` without clearing it. Both readings are modelled, by the parameter
  `clears`: `PendingStop.EveryRunExactly`, `PendingStop.StuckWithoutTheClear`.
- `swallow_pending_sigstop` takes any stop for the SIGSTOP, and a stop-all takes any SIGSTOP for its own:
  `PendingStop.SwallowExactly`, `PendingStop.StopExactly`, `PendingStop.EveryRunExactly`. A SIGCONT discards the
  SIGSTOP that a flag stands for: `PendingStop.DiscardedStopIsAwaited`.
- One `expecting_syscall_exit` serves all threads, a step over a breakpoint can leave a syscall unseen, a clone
  event that a stop-all collects resets the flag inside its syscall, and a syscall id has 16 bits:
  `SyscallStops.ClassifiedRightExactly`, `SyscallStops.ReportsAreMeantExactly`,
  `SyscallStops.CollectedCloneEvent`, `SyscallStops.IdIsNumberExactly`.
- `write_memory` does not know about breakpoints: `BreakpointRuns.WriteOverTraps`.
- `reset_inline_height` also counts the function itself at its first instruction, and `frames()` can start
  beyond the list: `Stacks.EntryShowsTheCaller`, `Stacks.VisibleFramesExactly`.
- `row_size` is not defined in the source; it is taken to be twice the encoding size.
- `index_die` is read as meant: `DW_AT_low_pc`, `DW_TAG_inlined_subroutine`, and only entries that have a name.

## Model

| member | source | states |
|---|---|---|
| Cursors.Cursor.LebLoop | src/dwarf.cpp:61-75 | The accumulating loop of both readers leaves the number formed by the seven-bit groups modulo 2^64, the position after the last byte and the shift; an eleventh byte or the end of data is an error |
| Cursors.Cursor.Uleb128 | src/dwarf.cpp:61-75 | Reads exactly the unsigned number at the position and moves just past it |
| Cursors.Cursor.Sleb128 | src/dwarf.cpp:77-94 | The signed reader with its `shift < 8` guard, tied to the function that the round-trip lemmas are about |
| Cursors.Cursor.SkipString | src/dwarf.cpp:144-150 | Moves just past the zero byte that ends the string |
| Cursors.Cursor.SkipForm | src/dwarf.cpp:96-159 | Moves as the form's layout says, through indirect forms of any depth, or rejects the form |
| Cursors.UlebRoundTrip | src/dwarf.cpp:61-75 | For every 64-bit number, anywhere in any data: reading its encoding gives it back and consumes exactly its bytes |
| Cursors.SlebDeparture | src/dwarf.cpp:77-94 | On any LEB128 string of up to nine bytes the reader is off from section 7.6 of DWARF 4 by 128^k exactly for negative numbers of k > 1 bytes |
| Cursors.SlebRoundTrip | src/dwarf.cpp:77-94 | For every signed 64-bit number, what reading its encoding returns, right or wrong, and that it consumes exactly its bytes |
| Cursors.SlebRoundTripExactly | src/dwarf.cpp:77-94 | The signed round trip holds if and only if the number is not in [-2^62, -64) |
| Cursors.SlebMisreadsMinus65 | src/dwarf.cpp:90-91 | The witness: the two bytes of -65 are read as 16319 |
| Cursors.SkipFormExactly | src/dwarf.cpp:96-159 | On one complete value of any form of section 7.5.4 of DWARF 4, through indirect forms of any depth, skipping throws if and only if the form is a rejected one, and otherwise steps over exactly that value |
| Cursors.FormSizes | src/dwarf.cpp:96-159 | What skipping does for each form by its number in section 7.5.4 of DWARF 4: the fixed sizes, the LEB128 numbers, the blocks and the widths of their lengths, the text, and the rejected ones |
| RangeLists.Iterator.Advance | src/dwarf.cpp:516-545 | One `++`: base selections update the carried base, a pair is yielded relative to it, a zero pair ends the list |
| RangeLists.Contains | src/dwarf.cpp:575-579 | On any data the loop reads on until a range contains the address, the list ends or the data do |
| RangeLists.SearchIsAny | src/dwarf.cpp:575-579 | On a terminated list that is whether some decoded range contains the address |
| RangeLists.DecodeIsMeaning | src/dwarf.cpp:511-545 | Every list that section 2.17.3 of DWARF 4 can express, encoded, is decoded to each pair rebased on the latest selection before it |
| RangeLists.ContainsIsCovers | src/dwarf.cpp:575-579 | So the answer is yes exactly when some pair of the list as written, with the base in force, covers the address |
| RangeLists.BaseIsLatest | src/dwarf.cpp:530-534 | The base in force at a pair is the address of the last selection before it, or the first base when there is none |
| RangeLists.FirstPair | src/dwarf.cpp:516-545 | What the iterator yields first starts at the first number of the first pair added, modulo 2^64, to the base in force there |
| Dies.ParseDie | src/dwarf.cpp:240-261 | Parses one entry: null, unknown abbreviation, or the positions of all attributes and the next position |
| Dies.SkipAttributes | src/dwarf.cpp:252-259 | The loop over attribute specifications records each position and stops after the last value |
| Dies.Reference | src/dwarf.cpp:409-452 | The position in the unit, or the offset in another one, that a reference form leads to, or an invalid reference |
| Dies.ParseLaid | src/dwarf.cpp:240-261 | Parsing at the place of any entry of a laid-out tree gives that entry, unless an attribute has a rejected form, and then throws for it |
| Dies.AddressIsRejected | src/dwarf.cpp:156-157 | The witness: a subprogram with an address, laid out as the standard says, that cannot be parsed |
| Dies.NextSibling | src/dwarf.cpp:281-305 | `++` reaches what follows the whole subtree, by the entry's end, by a correct sibling attribute or by walking the sub-children alike, or throws the error that `Cross` names |
| Dies.SkipChildren | src/dwarf.cpp:294-302 | Walking the sub-children recursively ends at the entry after the subtree, whether or not a sibling attribute exists, or throws |
| Dies.NextChild | src/dwarf.cpp:281-305 | From one child the iterator reaches the next one, or the null entry after the last, or throws |
| Dies.Children | src/dwarf.cpp:263-305 | Iteration yields exactly the direct children, in order, and stops at the null entry, or throws the error of the first entry on its way that cannot be read |
| Dies.CrossKidsExactly | src/dwarf.cpp:281-305 | It throws if and only if an entry on the way, children and walked descendants, has an attribute of a rejected form, or children and a sibling reference that is not followed |
| DieTrees.EncodedIsLaid | src/dwarf.cpp:240-305 | Every well-formed tree with values of any form of section 7.5.4 of DWARF 4, encoded in pre-order with null terminators anywhere in a unit, has the layout that these theorems are about, given right sibling attributes |
| DieAddresses.NoAddresses | src/dwarf.cpp:338-346 | No attribute of a parsed entry can be read as an address |
| DieAddresses.ContainsExactly | src/dwarf.cpp:581-592 | For every parsed entry: throws for a low address without ranges, and for ranges when the unit's root has a low address; otherwise searches the range list from base zero, or says no for an entry with neither |
| DieAddresses.LowPcThrows | src/dwarf.cpp:474-485 | The start of an entry, `low_pc`, throws for every parsed entry without ranges |
| DieAddresses.AttrOfExactly | src/dwarf.cpp:318-336 | An attribute is looked up as the first of the specifications with that number, with its form and position, and missing when there is none |
| DieAddresses.ContainsByRanges | src/dwarf.cpp:581-592 | An entry with ranges (0x55) of the form `sec_offset` (0x17), in a unit whose root has no low address, contains an address if and only if the list written at that offset of `.debug_ranges` covers it from base zero |
| DieAddresses.StartsWithFirstRange | src/dwarf.cpp:474-485 | And its start, `low_pc`, is where the first pair of that list starts |
| EntryNames.Name | src/dwarf.cpp:642-653 | The name is what the innermost of the nested calls answers or throws, whatever their depth, and there is only one such answer |
| EntryNames.ReturnsExactly | src/dwarf.cpp:642-653 | Over all units, forms and strings: the calls end if and only if the references that they follow, into other units too, never come back to an entry |
| EntryNames.OwnSpecificationNeverReturns | src/dwarf.cpp:646-647 | The witness: two bytes of an entry whose specification is itself, for which they never end |
| MeantNames.LaidIsMeant | src/dwarf.cpp:240-261 | Read with all forms of section 7.5.4 of DWARF 4, the bytes of any laid-out entry are that entry, attribute by attribute, also where the debugger rejects a form |
| MeantNames.OwnNameIsMeant | src/dwarf.cpp:642-644 | The name of a laid-out entry is the text in the bytes of its name attribute, or the one in `.debug_str` at their offset |
| MeantNames.ReferenceIsMeant | src/dwarf.cpp:646-650 | Without a name attribute it is the name of the entry at the place in the bytes of its specification or abstract origin, in any reference form but `ref_sig8`, in this unit or another |
| MeantNames.AnswerIsName | src/dwarf.cpp:642-653 | Whenever the calls of `name` end and do not throw, at any place in any units, the answer is that name, or that there is none |
| FunctionIndex.Dwarf.IndexDie | src/dwarf.cpp:655-668 | Adds the functions of the subtree, in the sense of `IndexCompleteness.AllFunctionsExactly`, that the iterator comes to before an error, and throws that error |
| FunctionIndex.BuildIsCollected | src/dwarf.cpp:655-668 | What is added is the filter of the flat pre-order list of all entries of the tree, or when an error ends it a front part of that |
| FunctionIndex.Dwarf.Index | src/dwarf.cpp:633-640 | An empty index is built over all units up to the first error; one that is not empty is taken as it is, without an error |
| FunctionIndex.QueriesExactly | src/dwarf.cpp:633-640 | After any number of queries, failed ones included, the index is what the first build added; a later query reports the error again if and only if that was nothing |
| FunctionIndex.BuildAllIsCollected | src/dwarf.cpp:633-640 | Over all units that is a front part of the functions of all units in order, by whatever names are looked up, all of them when no error ends the build |
| IndexCompleteness.BuildAllIsRan | src/dwarf.cpp:633-668 | Building the index is one run over the list of all entries and of the places behind all children, in pre-order, stopped by the first failure |
| IndexCompleteness.RanExactly | src/dwarf.cpp:633-668 | Such a run ends without an error if and only if it fails nowhere in the list; it adds a front part of the functions by their own names, and all of them if and only if there is none from a place on where it fails |
| IndexCompleteness.AllFunctionsExactly | src/dwarf.cpp:655-663 | An entry belongs in the index, at its unit and position and by the name in its bytes, if and only if it is an entry of the tree of its unit whose abbreviation has the tag 0x2e or 0x1d and some attribute 0x11 or 0x55, and it has that name |
| IndexCompleteness.IndexIsCompleteExactly | src/dwarf.cpp:633-668 | For all laid-out units, with the answers of `name` on them: the first query fails if and only if some entry has an attribute of a rejected form, some function a name whose lookup throws, or some child a sibling reference that is not followed; and after any number of queries the index is a front part of all functions as their bytes name them, and complete if and only if no such function is at or behind such an entry or behind the subtree of such a child |
| IndexCompleteness.FunctionsHaveNames | src/dwarf.cpp:642-644 | In the witness, 39 bytes of a unit with its header, the bytes name all three functions: `f`, `i` inlined into it, and `g` |
| IndexCompleteness.LookupsExactly | src/dwarf.cpp:642-653 | There the answers of `name` are those that give `f` and `i` at the first two: they are the only ones that are asked |
| IndexCompleteness.SecondFunctionIsLost | src/dwarf.cpp:633-640 | So of a unit laid out as the standard says, with `f` and the inlined subroutine `i` in it, which have ranges, and behind them `g`, which has an address, the index is `f` and `i`; `g` is missing for good, and only the first query says so |
| FunctionIndex.Dwarf.FindFunctions | src/dwarf.cpp:618-631 | Returns exactly the multiset of entries of the index with that name, or the error of building it |
| FunctionIndex.NamedExactly | src/dwarf.cpp:618-631 | Each entry of the index with that name is among them as often as it is in the index, and no other entry is |
| FunctionIndex.Dwarf.FunctionContaining | src/dwarf.cpp:604-616 | In an order left open: an entry that is a subprogram around the address, none when no entry is, or the error of an entry for which the question throws |
| FunctionIndex.HoldsExactly | src/dwarf.cpp:611-612 | An entry holds an address if and only if it contains it and has the tag 0x2e, and asking throws exactly what asking for its addresses throws |
| FunctionIndex.LowAddressThrows | src/dwarf.cpp:611-612 | A parsed entry with a low address, which is then not of the form of an address, and no ranges is one for which it throws |
| FunctionIndex.EntryHasTree | src/dwarf.cpp:604-616 | Every entry of the index stands for a laid-out subtree of its unit that can be parsed |
| FunctionIndex.FindInlined | src/dwarf.cpp:973-981 | The first child, as the iterator comes to it, that is an inlined subroutine around the address, none, or the error met before |
| FunctionIndex.InlineStack | src/dwarf.cpp:973-985 | The loop ends, with the entries of the chain below the function or the error met |
| FunctionIndex.Dwarf.InlineStackAt | src/dwarf.cpp:966-989 | From the address: an empty stack when no subprogram of the index contains it, the stack of one that does, down its own subtree, or the error of building the index or of asking an entry |
| FunctionIndex.NoStackAnywhere | src/dwarf.cpp:966-989 | Asking for an inline stack throws at every address when the index has failed to build, or when all functions of it have low addresses and no ranges |
| UnitLoading.LoadUnits | src/dwarf.cpp:203-216 | The units are constructed one after another, each reading its root entry for the offset of its line table, up to the first that throws |
| UnitLoading.LoadsExactly | src/dwarf.cpp:670-700 | All of them are constructed if and only if every root entry can be parsed and has no line table offset that cannot be read |
| UnitLoading.LineOffsetExactly | src/dwarf.cpp:695-700 | One root is read if and only if it can be parsed and its attribute 0x10, if there is one, has the form 0x17 and its four bytes in the unit |
| UnitLoading.AddressedRootFails | src/dwarf.cpp:670-700 | A file with a root entry that has an address, laid out as the standard says, does not load |
| UnitLoading.LoadedRootsHaveNoAddress | src/dwarf.cpp:670-700 | So the roots of a file that loads have no attribute with the form of an address |
| UnitLoading.IndexedHasNoAddress | src/dwarf.cpp:655-668 | Nor has any function that gets into the index |
| FunctionIndex.ChainIsMaximal | src/dwarf.cpp:966-989 | The chain starts at the function, goes from parent to child through inlined subroutines that all contain the address, and cannot be continued |
| FunctionIndex.StackIsInlinePath | src/dwarf.cpp:966-989 | The stack shows the entries of a path of subtrees from the function down, each but the first a child of the one before with the tag 0x1d that contains the address, with no such child below the last |
| LineTables.Iterator.Standard | src/dwarf.cpp:802-852 | One standard opcode: the new registers, the emitted row and the position |
| LineTables.Iterator.Extended | src/dwarf.cpp:854-885 | One extended opcode likewise |
| LineTables.Iterator.ExecuteInstruction | src/dwarf.cpp:796-901 | One instruction, special opcodes included |
| LineTables.QuotientIsDivision | src/dwarf.cpp:888-890 | The counted quotient and remainder are the source's division and modulus by the line range |
| LineTables.Iterator.Advance | src/dwarf.cpp:775-787 | `++` runs instructions until one emits a row, and at the end of data becomes the end iterator |
| LineTables.Rows | src/dwarf.cpp:761-787 | The loop from `begin` to `end` yields the rows of repeated `++` |
| LineTables.IteratedIsBatch | src/dwarf.cpp:775-787 | For every program that runs, repeated `++` yields exactly the rows of a batch interpreter and ends with the data if the last instruction emits a row, and otherwise fails |
| LineTables.EveryRowIsInFileOne | src/dwarf.cpp:818-820 | Every row of every program names file 1 |
| LineStandard.FollowsExactly | src/dwarf.cpp:796-901 | Run on any instruction of section 6.2.5 of DWARF 4, the debugger is at its end with the standard's registers and row if and only if the instruction is compatible, a condition by opcode, operand and registers |
| LineStandard.SetIsaExactly | src/dwarf.cpp:846-847 | For `set_isa`: exactly when its operand, run as an instruction, changes nothing, emits nothing and takes no operand |
| LineStandard.AgreesExactly | src/dwarf.cpp:796-901 | Registers and rows are the standard's after each instruction of a program if and only if each instruction is compatible |
| LineStandard.RowsAreTheStandards | src/dwarf.cpp:761-787 | A program of compatible instructions gives the standard's rows, and repeated `++` yields them |
| LineStandard.AdvancePcGoesBack | src/dwarf.cpp:814-816 | The witness: advancing by 64 moves the address back by 64 |
| LineStandard.AdvanceLineIsRejected | src/dwarf.cpp:849-850 | The witness: advancing the line throws |
| LineTables.EntryByAddress | src/dwarf.cpp:903-916 | The pairwise scan returns the first match among the rows that come before the program fails, if it does; without a match it throws that failure, or finds nothing |
| LineTables.EntryExactly | src/dwarf.cpp:903-916 | It is the first row that does not end a sequence with the address between it and the next row, and nothing exactly when there is no such row |
| LineTables.EntryIsFirst | src/dwarf.cpp:903-916 | The entry is the first row, of those before the program fails, that does not end a sequence and has the address from its own on up to the one of the row behind it |
| LineEncoding.EncodedRowsComeBack | src/dwarf.cpp:796-901 | Any list of sequences with line advances in [line_base, line_base + line_range), encoded with set_address, special opcodes and end_sequence, comes back row for row |
| EhFrame.ParsePointer | src/dwarf.cpp:1003-1129 | Base by the high bits, number by the low bits, the sum modulo 2^64, and the position after it |
| EhFrame.PointerIsRead | src/dwarf.cpp:1003-1129 | A pointer written anywhere, as a number of the width and signedness of its encoding, relative to its place, the text, the data or the function, is read back and stepped over |
| EhFrame.FindRow | src/dwarf.cpp:1203-1229 | On every nonempty sorted table the search terminates without index underflow at a row with the greatest address at or below pc, and fails exactly when pc precedes all rows |
| EhFrame.Lookup | src/dwarf.cpp:1198-1240 | Returns the frame description of a covering row, or the error |
| EhFrame.CoveringIsScan | src/dwarf.cpp:1203-1229 | A covering row starts where the row of a linear scan from the end starts |
| EhFrame.ScanMisses | src/dwarf.cpp:1218-1220 | The scan finds nothing exactly when pc precedes all rows |
| EhFrame.TableIsRead | src/dwarf.cpp:1198-1240 | A table written row by row, an address and a frame pointer in each, holds these addresses and leads to these frame descriptions |
| Cfi.UnwindContext.EmplaceRule | src/dwarf.cpp:1290-1290 | A register that holds a rule keeps it |
| Cfi.UnwindContext.RestoreRule | src/dwarf.cpp:1293-1295 | Fails without a rule of the CIE, and otherwise stores it with `emplace` |
| Cfi.UnwindContext.ExecuteLocation | src/dwarf.cpp:1301-1319 | The location instructions, on the context and the cursor |
| Cfi.UnwindContext.ExecuteCfa | src/dwarf.cpp:1321-1340 | The CFA instructions likewise |
| Cfi.UnwindContext.ExecuteRule | src/dwarf.cpp:1342-1388 | The register-rule instructions likewise |
| Cfi.UnwindContext.ExecuteExtended | src/dwarf.cpp:1299-1400 | All extended opcodes, remember_state and restore_state included; an opcode without a case does nothing |
| Cfi.UnwindContext.Execute | src/dwarf.cpp:1272-1401 | One instruction is decoding followed by the emplace step on the whole context |
| Cfi.UnwindContext.Run | src/dwarf.cpp:1259-1267 | The loop, with or without the stop beyond pc, computes the run over the bytes |
| Cfi.Unwind | src/dwarf.cpp:1247-1267 | From frame to context: range check, CIE program, saved CIE rules, frame program up to pc |
| CfiTables.RunIsExec | src/dwarf.cpp:1259-1267 | The run over bytes is the run over the decoded instruction list, early stop included |
| CfiTables.UntilIsLeadingRow | src/dwarf.cpp:1266-1267 | For every program, however locations move, the early-stopping loop leaves the rules of the row before the first one beyond pc of the fully expanded table |
| CfiTables.UntilIsLastRow | src/dwarf.cpp:1266-1267 | When locations never decrease, it leaves exactly the rules of the last row at or below pc, as section 6.4.3 of DWARF 4 says |
| CfiTables.BackwardLocationNeedsTheCondition | src/dwarf.cpp:1266-1267 | A program that moves back, for which it does not |
| CfiTables.CompatibleExactly | src/dwarf.cpp:1288-1295 | One instruction has the same outcome under `emplace` and under section 6.4.2 exactly when it gives no register another rule than it holds, nor restores one that the CIE lacks |
| CfiTables.AgreesExactly | src/dwarf.cpp:1272-1401 | The two interpreters agree after every prefix, rule stack included, if and only if no instruction of the program is incompatible |
| CfiTables.EpilogueFails | src/dwarf.cpp:1293-1295 | The witness: saving a register and restoring it fails where the standard returns to the initial rule |
| CfiTables.SecondRuleIsDropped | src/dwarf.cpp:1288-1291 | The witness: a second rule for a register is dropped |
| CfiTables.CieRulesAreFinal | src/dwarf.cpp:1342-1398 | No program changes a rule that the CIE set, in force or remembered |
| CfiTables.RestoreNeverRestores | src/dwarf.cpp:1385-1388 | In every reachable state restore does nothing or fails |
| CfiTables.RememberRestore | src/dwarf.cpp:1390-1398 | Any balanced, arbitrarily nested sequence between remember_state and restore_state leaves register rules, CFA rule and rule stack as they were, under either storing policy |
| CfiTables.BracketRuns | src/dwarf.cpp:1390-1398 | Such a bracket runs exactly when its body does |
| CfiStandard.DecodesAsSeen | src/dwarf.cpp:1279-1400 | Every instruction of section 6.4.2 of DWARF 4, `set_loc`, `def_cfa_register` and expressions aside, is decoded with its own end and register, and the offset that the debugger reads |
| CfiStandard.LocationExactly | src/dwarf.cpp:1301-1307 | The location of `set_loc` is read right exactly when it is no signed number with an excess |
| CfiStandard.FactoredExactly | src/dwarf.cpp:1288-1290 | A factored offset is the exact product if and only if that fits in 64 bits and the error of reading the operand, factored, is a multiple of 2^64 |
| CfiFollows.DefCfaRegisterExactly | src/dwarf.cpp:1299-1400 | After `def_cfa_register`, which has no case, the debugger has the standard's place and context if and only if the CFA names that register already and the operand, run as instructions, is quiet |
| CfiFollows.FollowsExactly | src/dwarf.cpp:1272-1401 | For every instruction of the standard and every context, the debugger has the standard's place and context at its end if and only if the instruction is harmless, a condition by opcode, operand and context |
| CfiFrames.FollowsProgramExactly | src/dwarf.cpp:1259-1267 | The debugger passes through all places and contexts of the standard's run of a program, rule stack included, if and only if each instruction is harmless |
| CfiFrames.UnwindIsStandardRow | src/dwarf.cpp:1247-1267 | From the bytes of a frame: with locations that never decrease, and for every pc up to which the instructions are harmless, the context is the row for pc of the table that section 6.4 of DWARF 4 gives, read by a decoder of the standard's own |
| CfiFrames.CfaRegisterIsKept | src/dwarf.cpp:1299-1400 | The witness: a frame that sets the CFA register to 0 keeps register 7 |
| CfiFrames.FramePointerFails | src/dwarf.cpp:1299-1400 | The witness: a frame that sets the CFA register to the frame pointer cannot be unwound |
| CfiEncoding.InstructionDecodes | src/dwarf.cpp:1279-1400 | The standard's decoder inverts the encoding of every instruction, `set_loc` and expressions aside, wherever it lies, and consumes exactly its bytes |
| CfiEncoding.ProgramDecodes | src/dwarf.cpp:1259-1267 | So every program comes back from its bytes |
| CfiEncoding.WrittenFrameUnwinds | src/dwarf.cpp:1247-1267 | End to end: for every frame written with such instructions whose locations never decrease, and every pc up to which they are harmless, `unwind` leaves the row for pc of the table of the instructions as meant |
| CfiMeaning.WrittenFrameIsMeant | src/dwarf.cpp:1247-1401 | Said of the written operations alone: whatever harmless frame is written with the operations of section 6.4.2 of DWARF 4, at any pc of its function the CFA rule has the register of the last `def_cfa`, `def_cfa_sf` or `def_cfa_register` and the offset, factored where it should be, of the last `def_cfa`, `def_cfa_sf`, `def_cfa_offset` or `def_cfa_offset_sf` that no `restore_state` has undone, and every register the rule of the last operation in force that is about it, or that of the CIE where it is a `restore` |
| CfiMeaning.LocationIsLastSet | src/dwarf.cpp:1301-1319 | After any program the location is that of its last `set_loc` plus the deltas behind it, whatever came before |
| CfiMeaning.OnlyItsFunction | src/dwarf.cpp:1385-1401 | And a pc outside of its function has no context |
| CfiMeaning.PushedFramePointer | src/dwarf.cpp:1331-1333 | The witness: after `push rbp`, `def_cfa_offset(16)` puts the CFA at 16 above the stack pointer, with the saved registers 8 and 16 below it |
| UnwindRules.Execute | src/dwarf.cpp:1403-1438 | Fails when the CFA or some rule cannot be evaluated; otherwise performs the effects of all rules, each computed from the old registers, the CFA and memory, in the order of the walk, on the old registers with rsp set to the CFA; and what its writes send to the tracee |
| UnwoundRegisters.SucceedsExactly | src/dwarf.cpp:1403-1438 | Unwinding succeeds if and only if the register of the CFA has a 64-bit value and every rule finds its value and a slot wide enough; the CFA is then the little-endian old value of that register plus the offset, modulo 2^64 |
| UnwoundRegisters.UnwoundSlots | src/dwarf.cpp:1403-1438 | When the written slots lie apart, each ruled register holds, kind by kind: the eight bytes of memory at the CFA plus the offset, that address itself, the old bytes of the other register, or its own old bytes; rsp without a rule holds the CFA, and all other registers what they held |
| UnwoundRegisters.UndefinedExactly | src/dwarf.cpp:1412-1414 | Afterwards a register reads as undefined if and only if it did before or a rule undefines a register that starts at the same two bytes |
| UnwindRules.PushedExactly | src/registers.cpp:77-87 | Exactly what unwinding changes in the main thread: the word of rsp, the words of registers whose rules give values, and all floating-point registers if one of them is among these, become the unwound ones |
| UnwindRules.SentExactly | src/registers.cpp:77-87 | What is sent to the tracee, by position: the aligned eight bytes of rsp and of each other register written, and bytes 224 to 736 of the user area for a floating-point one |
| UnwindRules.TraceeStackPointerMoves | src/registers.cpp:77-87 | With no rule for rsp, the tracee's own stack pointer becomes the CFA |
| UnwindRules.OrderDoesNotMatterExactly | src/dwarf.cpp:1411-1435 | The unwound registers are the same for all orders of the rule map if and only if no two rules write different bytes to one place |
| UnwindRules.SeparateRegistersIgnoreTheOrder | src/dwarf.cpp:1411-1435 | In particular when no two ruled registers share storage |
| UnwindRules.SharedStorageDependsOnTheOrder | src/dwarf.cpp:1411-1435 | The witness: rules for st0 and mm0, which share storage, whose two orders leave different bytes |
| UnwindRules.UnwoundByte | src/dwarf.cpp:1403-1438 | Each byte of the unwound registers: the rule's value, else the CFA inside rsp, else the old byte |
| UnwindRules.StackPointerRule | src/dwarf.cpp:1409-1437 | An explicit rule for rsp overrides the CFA |
| UnwindRules.StackPointerIsCfa | src/dwarf.cpp:1409-1437 | Without one, also under same_value, rsp is the CFA |
| Stacks.Stack.ResetInlineHeight | src/stack.cpp:13-20 | Counts the innermost functions that start at the current address; throws, with the old height, when the inline stack cannot be looked up, and with the count so far when the start of the next function cannot |
| ShownFrames.HeightExactly | src/stack.cpp:13-20 | The inline height is the number of innermost functions, up to the first that does not, that start at the pc, and zero without a pc in a file |
| Stacks.Stack.CreateBaseFrame | src/stack.cpp:79-87 | Pushes the innermost frame with the line entry's address and location, or throws and pushes nothing when looking up the entry does |
| Stacks.Stack.CreateInlineStackFrames | src/stack.cpp:89-96 | Pushes the enclosing functions, each with the start and call site of the one inside it, up to the first that has none; a call site that cannot be found leaves its frame behind |
| Stacks.Stack.PushGroup | src/stack.cpp:53-75 | One turn of the loop: the group of the physical frame, and the caller or the error; or what a lookup that throws leaves of the group |
| Stacks.Stack.Unwind | src/stack.cpp:38-77 | When counting the inline height throws, the frames and the current frame stay those of the last stop; otherwise the list is the groups of the physical frames and what a throwing lookup leaves of one more, and the error is the one that ended the walk |
| Stacks.PushingIsGroups | src/stack.cpp:48-76 | What the loop pushes is the concatenation of the groups of the walk, innermost first, and of the broken one at its end |
| Stacks.FramesAreNewExactly | src/stack.cpp:38-46 | Whatever the list held before, afterwards it is that concatenation if and only if counting the inline height does not throw |
| Stacks.WalkFollowsCallers | src/stack.cpp:53-76 | The physical frames start at the thread and each is the caller of the one before |
| Stacks.WalkIsUnique | src/stack.cpp:53-76 | The walk does not depend on the bound by which it is known to end |
| Stacks.RisingStackEnds | src/stack.cpp:53-76 | Unwinding ends whenever every caller lies higher on the stack |
| Stacks.OwnCallerNeverEnds | src/stack.cpp:53-76 | A frame that is its own caller is followed for ever |
| Stacks.FunctionsAreReversedStacks | src/stack.cpp:79-96 | The functions shown are the reversed inline stacks, one after another |
| ShownFrames.FrameShows | src/stack.cpp:79-96 | In the list of frames, said of the inline stacks and line entries alone: the first frame of each group shows the innermost function and reports the address and the location of the line entry, or the pc and no location; each further frame shows the next function outwards, reports where the function shown before it starts and has its call site, and all but the last are inlined |
| ShownFrames.BrokenShows | src/stack.cpp:79-96 | So do the frames that a lookup that throws leaves of a group |
| ShownFrames.WalkEndsExactly | src/stack.cpp:53-76 | The walk goes through positions of the main file whose pc is not zero, whose inline stack is not empty and whose lookups succeed, and ends where there is no caller or it is none of these |
| ShownFrames.CallerIsReturnAddress | src/stack.cpp:69-75 | A caller stands at the unwound rip of its callee minus one, modulo 2^64 |
| Stacks.OnePhysicalFrameEach | src/stack.cpp:79-96 | The frames not marked as inlined are exactly one for each physical frame, the last of its group, showing its outermost function |
| Stacks.GroupSharesRegisters | src/stack.cpp:58-69 | For every target that unwinds as `UnwindRules.Execute` does, all frames of a group share the frame's registers apart from the CFA of the last |
| Stacks.LastFrameHasCfa | src/stack.cpp:69-69 | That CFA is the one of the frame's context, when there is one |
| Stacks.WalkHasSameArea | src/stack.cpp:53-76 | So it is for all frames of the walk: callers' registers fill the same area |
| Stacks.VisibleFramesExactly | src/stack.cpp:22-24 | After an `unwind` that counts the height, `frames()` stays within the list if and only if the height is zero, the thread stands in a whole physical frame, or enough is left of a broken one; and the exact condition under which the current frame exists |
| Stacks.EntryShowsTheCaller | src/stack.cpp:13-20 | At a function's first instruction the current frame is its caller's |
| StackFunctions.FramesAreStale | src/stack.cpp:38-46 | With the functions of an index that failed to build, or holds functions with low addresses and no ranges only, every `unwind` in the main file throws and leaves the frames of the last stop |
| StackFunctions.NoStartWithoutRanges | src/stack.cpp:89-92 | A parsed function without ranges has no start: a frame that needs it is where the list breaks off |
| StackFunctions.UnitContaining | src/dwarf.cpp:594-602 | The first unit whose root contains the address, none when all say no, or the error of the first that says neither |
| StackFunctions.NoFramesWithALowRoot | src/stack.cpp:79-82 | When the root of the first unit, parsed, has a low address, which is then not of the form of an address, and no ranges, line lookups throw, and `unwind` pushes no frame at all |
| TraceeMemory.Read | src/process.cpp:352-370 | The chunk loop computes the read, short transfers included |
| TraceeMemory.ChunksCover | src/process.cpp:357-364 | The chunks follow one another from the address to the end of the request and none crosses a page |
| TraceeMemory.ChunkCount | src/process.cpp:357-364 | There is one chunk for each page touched |
| TraceeMemory.ReadIsBytes | src/process.cpp:352-370 | A read of any mapped region that one call can take returns exactly its bytes |
| TraceeMemory.ReadExactly | src/process.cpp:352-370 | For any memory and any request of up to 1024 pages: it fails if and only if what it asks of its first page is not mapped, and otherwise each byte is the tracee's if everything up to the end of its own page's part is mapped, and zero if not |
| TraceeMemory.Write | src/process.cpp:387-409 | The word loop computes the write; on a failed word the earlier ones stay |
| TraceeMemory.WriteIsStored | src/process.cpp:387-409 | For every length and alignment, memory becomes the old one with exactly the data stored; bytes after it in the last word survive |
| TraceeMemory.WriteSucceedsExactly | src/process.cpp:387-409 | It succeeds if and only if all of its words are mapped |
| TraceeMemory.WriteThenRead | src/process.cpp:352-409 | Reading back returns the data and no byte outside the range changes |
| Breakpoints.PokeLowByte | src/breakpoint_site.cpp:33-40 | The read-modify-write of a word changes one byte of memory, and the low byte saved is the one that was there |
| Breakpoints.EnableOverlays | src/breakpoint_site.cpp:24-45 | Enabling any site keeps the overlay, on success and on failure |
| Breakpoints.DisableOverlays | src/breakpoint_site.cpp:48-69 | So does disabling |
| SiteMarks.EnableExactly | src/breakpoint_site.cpp:24-45 | Enabling succeeds if and only if the site is enabled already, the eight bytes of a software site are mapped, or a slot is free for a hardware one; then the site, of the same address and kind, is enabled, and int3 lies in memory at a software one; otherwise sites and memory are as before |
| SiteMarks.HardwareEnableExactly | src/breakpoint_site.cpp:28-29 | With the slots in the hands of their owners, it fails for a hardware site if and only if all four are owned |
| SiteMarks.DisableExactly | src/breakpoint_site.cpp:48-69 | Disabling succeeds unless the word of an enabled software site is not mapped; then the site is disabled, and a software one has its original byte back |
| Breakpoints.EnableRegisters | src/breakpoint_site.cpp:28-29 | Enabling keeps the ownership of debug registers, and gains the one it is given |
| Breakpoints.DisableRegisters | src/breakpoint_site.cpp:52-55 | Disabling keeps the ownership of the others |
| BreakpointRuns.CreateOverlays | src/process.cpp:320-327 | Creating keeps the overlay |
| BreakpointRuns.RemoveOverlays | include/libkdebugger/stoppoint_collection.hpp:163-175 | So does removing |
| BreakpointRuns.StepOverAgrees | src/process.cpp:647-664 | The step-over of a run is the engine's |
| BreakpointRuns.StepOverOverlays | src/process.cpp:647-664 | So does stepping over a breakpoint, with the tracee's stores in between, also when a call to the kernel fails and the site stays lifted |
| BreakpointRuns.StartIsGood | src/breakpoint_site.cpp:18-21 | Memory and registers are right before any site exists |
| BreakpointRuns.EveryRunIsOverlaid | src/breakpoint_site.cpp:24-69 | In every state of every run of create, enable, disable, remove, step-over, tracee execution, thread selection and stops of any thread, memory is the original with int3 at exactly the enabled software sites, several in one word or not |
| SiteMarks.RunsFollowTheMarks | src/breakpoint_site.cpp:24-69 | Over every such run the sites, their kinds and which are enabled are a function of the operations and of whether each succeeded: creating and removing change just their own site, enabling and disabling its mark, and a step-over nothing unless a call to the kernel fails; each operation succeeds exactly when these marks say so, and memory has int3 at exactly the software sites marked as enabled |
| SiteMarks.StartHasNoMarks | src/breakpoint_site.cpp:18-21 | A run may start with no site and no mark |
| BreakpointRuns.RegistersAreOwnedExactly | src/process.cpp:750-750 | The owned debug registers are those of the enabled hardware sites in all states of a run if and only if no thread but the main one stops while a hardware site is enabled |
| BreakpointRuns.AllDisabledIsOriginal | src/breakpoint_site.cpp:48-69 | With every site disabled, memory is the original |
| BreakpointRuns.GetInRegion | include/libkdebugger/stoppoint_collection.hpp:193-202 | Exactly the sites of the half-open region, in order |
| BreakpointRuns.ReadWithoutTraps | src/process.cpp:372-385 | Each byte is the one saved by a trap there, or the raw one |
| BreakpointRuns.ReadOriginal | src/process.cpp:372-385 | In every state of a run the result is the original bytes of any mapped region |
| BreakpointRuns.WriteOverTraps | src/process.cpp:387-409 | A write keeps the overlay if and only if each trap in its range stands for an int3 and is given one |
| StopEngine.BreakpointSite.Enable | src/breakpoint_site.cpp:24-45 | The object's step on site, memory and registers |
| StopEngine.BreakpointSite.Disable | src/breakpoint_site.cpp:48-69 | The object's step likewise |
| StopEngine.Debugger.CreateSite | src/process.cpp:320-327 | A second site at one address is refused; otherwise the site is appended |
| StopEngine.Debugger.Push | include/libkdebugger/stoppoint_collection.hpp:75-79 | Appends and changes no other site |
| StopEngine.Debugger.FindByAddress | include/libkdebugger/stoppoint_collection.hpp:99-110 | The first site at the address |
| StopEngine.Debugger.RemoveByAddress | include/libkdebugger/stoppoint_collection.hpp:170-175 | Disables the site and erases it; when disabling fails it stays; without a site, which the source does not ask, an error |
| StopEngine.Debugger.StepOverBreakpoint | src/process.cpp:647-664 | Lifts the enabled site at pc while the tracee runs and puts it back; a call to the kernel that fails leaves it lifted |
| StopEngine.Debugger.HandleStop | src/process.cpp:750-750 | A stop of a thread reads its registers again and changes nothing else |
| DebugRegisters.FreeIsDisabled | src/process.cpp:65-72 | The test for a free slot is that its enable bits are clear |
| DebugRegisters.ClearedSlot | src/process.cpp:455-456 | Clearing disables the slot and leaves the fields of the others; the upper half survives except for slot 3, whose mask is a negative int |
| DebugRegisters.ArmedSlot | src/process.cpp:424-434 | Arming gives the slot exactly its enable bit, mode and size and leaves the others |
| HardwareStops.Process.FindFree | src/process.cpp:65-72 | The first free slot, or the error when there is none |
| HardwareStops.Process.SetStoppoint | src/process.cpp:416-447 | The new state of all cached register files and of the kernel's, on success and on each failure |
| HardwareStops.Process.ClearStoppoint | src/process.cpp:450-468 | The new state likewise |
| HardwareStops.SetKeeps | src/process.cpp:416-447 | A set takes a slot that nobody owns, fails for want of one exactly when four are live, and keeps every live slot showing its owner |
| HardwareStops.OwnerInBits | src/process.cpp:24-62 | In the registers an owned slot has its enable bit, and its kind and size as the numbers that the processor takes: 0, 1 or 3 for execution, writes or both, and 0, 1, 3 or 2 for 1, 2, 4 or 8 bytes |
| HardwareStops.ClearKeeps | src/process.cpp:450-468 | A clear removes one owner and keeps the others |
| HardwareStops.Process.ReadAllRegisters | src/process.cpp:284-296 | The cached debug registers of the thread become the kernel's |
| HardwareStops.RefreshExactly | src/process.cpp:276-297 | That keeps every live slot with its owner if and only if the thread is the main one or no slot is live |
| HardwareStops.SlotIsGivenAgain | src/process.cpp:416-435 | The witness: after another thread's stop, with that thread selected, setting gives slot 0, live or not, and disarms all others |
| HardwareStops.EveryRunExactly | src/process.cpp:416-468 | Over every run of set, clear, thread selection and stops, each live slot has one owner and shows its address, mode and size, in all states, if and only if no other thread than the main one stops while a slot is live |
| HardwareStops.SetRefusedExactly | src/registers.cpp:55-87 | When the kernel refuses a write of setting a stop point, the slots stay with their owners if and only if it is the write of the address, all slots are owned, or the size is invalid: otherwise the cached DR7 has armed a slot without an owner |
| HardwareStops.OtherThreadsNeverArmed | src/process.cpp:300-304 | No run changes the kernel's debug registers of another thread |
| HardwareStops.ArmedInEveryThreadExactly | src/process.cpp:437-444 | At any point of any run all threads see the stop points if and only if none is set or there is one thread |
| Watchpoints.Watchpoint.Enable | src/watchpoint.cpp:25-31 | The object's step on the registers and its own fields |
| Watchpoints.Watchpoint.Disable | src/watchpoint.cpp:33-39 | The object's step likewise, with the guard as it stands |
| Watchpoints.DisableExactly | src/watchpoint.cpp:33-39 | In every sound state disabling is defined if and only if the watchpoint is enabled, and then does nothing |
| Watchpoints.WatchEnableExactly | src/watchpoint.cpp:25-31 | Enabling a disabled watchpoint succeeds if and only if a slot is free and its size is 1, 2, 4 or 8; it then owns the lowest free slot, which shows its address, kind and size, and otherwise stays as it is |
| Watchpoints.EveryWatchRunExactly | src/watchpoint.cpp:25-39 | Over every run of creating, enabling, disabling and removing watchpoints among breakpoints, thread selections and stops: every slot has one owner, those of enabled watchpoints among them, in all states if and only if no thread but the main one stops while a slot is owned |
| Watchpoints.SlotsNeverComeFree | src/watchpoint.cpp:33-39 | However many watchpoints are disabled and removed, the slots they were ever given stay owned, at most four enablings succeed in a run, a stop point can be set if and only if fewer than four slots are owned, and none ever again after four enablings |
| Watchpoints.RemovedKeepsItsSlot | include/libkdebugger/stoppoint_collection.hpp:163-175 | The witness: a watchpoint enabled and removed is gone from the collection, and its slot is still owned |
| PendingStop.ThreadTable.StopRunningThreads | src/process.cpp:686-710 | Afterwards no thread runs, each running one has taken its stop step, and right flags stay right if and only if no foreign SIGSTOP is collected |
| PendingStop.ThreadTable.StopThread | src/process.cpp:688-703 | One thread's step, signal and flag |
| PendingStop.ThreadTable.SwallowPendingSigstop | src/process.cpp:785-791 | Takes one stop and clears the flag, if it is set |
| PendingStop.StepExactly | src/process.cpp:686-710 | From right flags, a step leaves them right exactly when it is none of these: a foreign SIGSTOP collected by a stop-all, another stop or a foreign SIGSTOP swallowed for a pending one, a foreign SIGSTOP taken as main stop for a pending one, a SIGCONT while a SIGSTOP of the debugger's is undelivered, or, without the clear, the pending SIGSTOP as main stop |
| PendingStop.WhereItStands | src/process.cpp:686-791 | Where each operation leaves a thread that does not exit: running again after a main stop that is not reported, that of a SIGSTOP while the flag is set among them, and stopped after any other stop |
| PendingStop.EveryRunExactly | src/process.cpp:686-791 | In every interleaving, SIGSTOPs from elsewhere and SIGCONTs included, the flag of each live thread is set exactly when one SIGSTOP of the debugger's is undelivered, and never more than one is, in all states if and only if no such step is taken |
| PendingStop.SwallowExactly | src/process.cpp:785-791 | Swallowing is right whatever the kernel reports exactly when no other stop and no foreign SIGSTOP is due |
| PendingStop.StopExactly | src/process.cpp:688-703 | A stop-all is right for a running thread whatever the kernel reports exactly when no foreign SIGSTOP is due |
| PendingStop.ForeignStopIsTaken | src/process.cpp:693-699 | The witness: a thread in the stop of its own SIGSTOP when a stop-all sends another, whose flag stays clear while that one is undelivered |
| PendingStop.DiscardedStopIsAwaited | src/process.cpp:688-691 | The witness: after a SIGCONT has discarded its SIGSTOP, a flagged thread is waited for by the next stop-all without another signal |
| PendingStop.StuckWithoutTheClear | src/process.cpp:745-748 | With the flag left set, the next stop-all sends nothing and waits for a thread that can only exit |
| SyscallStops.Tracer.Handle | src/process.cpp:487-529 | The flag after each kind of stop, as a main stop and as one that a stop-all collects, and the report |
| SyscallStops.FlagExactly | src/process.cpp:487-529 | Syscall stops turn the flag over; all others reset it, but for the main stops that return before it is looked at |
| SyscallStops.CaughtExactly | src/process.cpp:571-582 | A syscall is not reported exactly when the policy is a list that its 16-bit id is not on |
| SyscallStops.ReportsAreMeantExactly | src/process.cpp:487-529 | In every run of one thread, across filtered stops, clone events, late SIGSTOPs, changes of policy, steps over breakpoints and stop-alls, the reported syscall stops are exactly the entries and exits of caught syscalls if and only if at none of them the boundary of a syscall has been crossed unseen an odd number of times, or the flag reset inside one, since flag and thread last agreed |
| SyscallStops.ReportsAreMeant | src/process.cpp:571-582 | In particular when no step over a site crosses the boundary of a syscall, no stop-all collects a clone event, and the policy does not change at a stop that is not reported |
| SyscallStops.SteppedOverEntry | src/process.cpp:647-664 | The witness: an entry stop at an enabled site, after which the next entry is reported as an exit |
| SyscallStops.CollectedCloneEvent | src/process.cpp:706-706 | The witness: a clone event that a stop-all collects, after which the exit of the clone is reported as an entry |
| SyscallStops.ClassifiedRightExactly | src/process.cpp:498-529 | Over any interleaving of threads, main stops and stops collected by a stop-all alike, all syscall stops are classified right if and only if at each of them the last stop that touched the flag was the thread's own, with the thread where that stop left it, or another thread's, with just one of the two an entry |
| SyscallStops.UndisturbedIsRight | src/process.cpp:498-529 | It suffices that no thread stops between another's entry and exit, none is stepped over a site or runs uncaught, and no stop-all collects a clone event |
| SyscallStops.TwoEntriesAreConfused | src/process.cpp:498-529 | The witness: two threads that each enter a syscall |
| SyscallStops.IdIsNumberExactly | include/libkdebugger/process.hpp:21-21 | The reported id is the syscall number exactly below 2^16 |

## Left out

- `dwarf_expression::eval` and frame bases: unfinished in the source.
- `parse_cie`, `parse_fde`, the header of `.eh_frame_hdr`, abbreviation tables, compile-unit and line-table headers: field-by-field reads whose results are parameters here (`Cfi.Frame`, `EhFrame.Header`, `Dies.Unit`, `LineTables.Table`). A line range of zero, which the source divides by, is excluded by the type.
- Empty `.eh_frame_hdr` tables: `count - 1` wraps around and the first read is outside the table.
- Paths: a frame without a line entry has no location, and the source location of an entry is a parameter.
- IndexCompleteness.IndexIsCompleteExactly: is about units on which the lookups of the build return; `EntryNames.ReturnsExactly` says when they do. Names in type units, by `ref_sig8`, are left out.
- UnitLoading.LoadUnits: the headers of units and of line tables, whose checks can throw too, are not modelled.
- HardwareStops.Process.SetStoppoint: takes the kernel to accept the writes; `SetRefusedExactly` says what a refusal for the current thread leaves.
- HardwareStops.Process.ClearStoppoint: likewise; a refused clear is not modelled.
- Stacks.Stack.CreateBaseFrame: without a line entry the source takes file and line from an empty iterator; the frame here has no location.
- Dies.Reference: gives the offset in another compile unit; `EntryNames` follows it there.
- The check in `contains_address` that the address belongs to the same file.
- Addresses that wrap around 2^64 in `read_memory`, `write_memory` and `get_in_region`: tracee addresses are unbounded integers there.
- `process_vm_readv` page by page: a chunk is transferred whole or not at all, and at most 1024 chunks in one call.
- `PTRACE_POKEDATA` on a word that can be read and not written: a readable word is writable here.
- Widening of floating-point register values: the register file of `UnwindRules` is bytes.
- CfiMeaning.WrittenFrameIsMeant: without `set_loc` for the same reason as the next line; `LocationIsLastSet` has it.
- UnwoundRegisters.UnwoundSlots: says what an `offset` rule leaves when the eight bytes are mapped; of a slot across the end of a mapped page, `TraceeMemory.ReadExactly` says what is read.
- CfiEncoding.InstructionDecodes: leaves out `set_loc`, whose operand is a pointer, and expressions, which the debugger rejects and `CfiStandard` does not give a meaning.
- LineTables.Iterator.Extended: moves over `define_file` without extending the list of files.
- Stacks.Stack.Unwind: asks that the walk ends, because the loop of the source has no other guard; `RisingStackEnds` and `OwnCallerNeverEnds` say when it does and does not.
- Watchpoints.EveryWatchRunExactly: disabling a watchpoint that is not enabled shifts by a negative amount, and what follows is not modelled; the alignment test and the data of a watchpoint are left out. Breakpoints clear only slots of their own, which `BreakpointRuns` proves of them.
- BreakpointRuns.EveryRunIsOverlaid: the tracee does not overwrite an int3 that is in place while it runs.
- HardwareStops.EveryRunExactly: no write of a debug register is refused in a run, the set of threads is fixed, and the debug registers start at zero.
- PendingStop.EveryRunExactly: a SIGSTOP from elsewhere that the kernel merges with the debugger's own is not counted apart; `wait_on_signal` lines 211-247, leftovers that `handle_signal` repeats, are not modelled.
- SyscallStops.ReportsAreMeantExactly: arguments and return values are not modelled. A stop that is thrown away by the step over a breakpoint is the step's trap or a clone event.
- `stop_reason` decoding, `notify_hit`, `get_current_hardware_stoppoint` and pc adjustment after an int3.
- `step_in`, `step_over`, `step_out`, `get_entries_by_line` and `get_symbol_containing_address`.
- Launch, attach, pipes, `/proc`, ELF mapping, the disassembler and the command line.
