# OpenMPTL in Dafny

A model of the parts of OpenMPTL where correctness is not obvious from one function body, with
proofs about all inputs, all runs and all interleavings.

| file | models |
|---|---|
| Spsc.dfy | the lock-free single-producer, single-consumer ring buffer as a state machine of single atomic loads, stores and slot accesses, with index loads that may be stale |
| UsartLine.dfy | main program and interrupt routine sharing the transmit queue: interrupt enable bit, flush, draining |
| RingBuffer.dfy, UsartStream.dfy, Terminal.dfy | the ring buffer, the USART stream, the output stream and the terminal as classes, their calls running to completion |
| LineEditor.dfy | the terminal's line editor on values: which lines and commands a stream of characters means |
| TypeList.dfy, RegMask.dfy, RegList.dfy | the compile-time lists and the register configuration compiler: grouping, conflict check, merging, deduplication |
| BitBand.dfy, RegisterFile.dfy | bit counting, bit-band aliases, and the register commands at run time with their shortcuts |
| SimBoard.dfy, Boot.dfy | the simulator's reactions to stores, and the clock and RTC set-up that waits for them |
| VectorTable.dfy | nested resource lists and the interrupt vector table generated from them |
| TimePoint.dfy, Debouncer.dfy, Digits.dfy, BaudRate.dfy | 32-bit time arithmetic and nanosleep, the debouncer, digit printers, baud rate rounding |
| Queue.dfy, Arith.dfy, Wrappers.dfy | bounded queues on values and what they accept, cyclic indices, laws of multiplication and division, Option and 32-bit words |

## How the model is made

- Templates are functions over sequences and datatypes. A `static_assert` that fails is `None`;
  the theorems say exactly for which arguments it does not fail.
- Register values are `bv32`. A register type is its address and reset value, as `std::is_same` sees
  it. A narrower register is a value whose upper bits are zero, which assignments preserve
  (`RegMasks.AssignKeepsWidth`).
- Classes and in-place algorithms of the source are classes, arrays and loops; they are tied to
  functions on values, about which the laws are proved. `hide` statements only shorten proofs.
- In `Spsc`, a load of the other side's index returns any entry of the index's modification order not
  older than the last one seen (coherence, section 1.10 of ISO/IEC 14882:2011). Each release store
  records how many slot accesses preceded it, so `RaceFree` says that every conflicting access is
  ordered before the one about to be made. Reading the slot of the current memory is justified by this.
- In `UsartLine` the interrupt routine runs atomically with respect to the main program and sees
  its latest stores (one core). The main program can be interrupted between any two atomic steps of
  a push. TXEIE is set and cleared in one store, through the bit-band alias.
- Wait loops poll bits that only a store can change; `Wait` observes them for an arbitrary number of
  rounds. `done` is false for every number of rounds exactly when the loop never ends.

## Where the code does not do what its callers expect

- `terminal::process_input` stores the line terminator outside of `cmd_buf` when a line has 80 or more
  printable characters (lib/include/terminal.hpp:108). `CallsExecuteLines` gives the exact condition,
  `OverrunExample` an input.
- `baud_to_brr` loses the carry of a fraction rounded to 16 (arch/arm/cortex/stm32/common/usart.hpp:145).
  `BrrAccurateIff`, `LostCarryExample`.
- `nanosleep` returns early when `ns * 1000` overflows 32 bits or the end time runs over the systick
  count. `NeverEarlyIff` gives the exact condition, `OverflowExample` and `TimePoints.WrapExample` an
  input for each way to fail it.
- The debouncer reports a new value at once when the end of the waiting time wraps the clock.
  `PollsAreRightIff` says exactly for which histories all polls are right, `WrapExample` gives one with a
  wrong poll.
- A boot with an oscillator, PLL or RTC enabled but not ready waits forever in the simulation.
  `SimBoard.Boot`, `ResetBoots`.
- The comment on `pushs` says that nothing is written when the block does not fit
  (include/fifo.hpp:110). All slots that looked free are overwritten, so nothing is written exactly when
  the queue looked full: `FailedCallOverwrites`, `FailedCallExample`. What does hold is that the consumer
  cannot see it: `UnpublishedCopyIsInvisible`.
- With loads as stale as the queue alone permits, a wakeup can be lost.
  `StaleLoadLosesWakeupIff`, `StaleLoadExample`.

## Model

| member | source | states |
|---|---|---|
| Spsc.RunSafety | include/fifo.hpp:41-152 | over every run of interleaved producer and consumer steps with stale index snapshots: popped is a prefix of pushed, occupancy stays below size, and no slot access races with an unsynchronised one of the other side |
| Spsc.StepKeepsInv | include/fifo.hpp:56-152 | every single atomic step of either side keeps the invariant relating the indices to the counts of elements ever pushed and popped |
| Spsc.StepRefinesQueue | include/fifo.hpp:81-152 | linearisation: only the store of the write index appends (a whole block that fits), only the store of the read index removes (the oldest element), all other steps are invisible; a call starts with its argument and loads take the value at the position loaded |
| Spsc.PushedIsWhatWasPassed | include/fifo.hpp:110-152 | over every run, what was pushed is the concatenation of the arguments of the calls that returned true |
| Spsc.CallPublishesItsArgument | include/fifo.hpp:132-152 | a call that publishes appends exactly the block it was called with, whatever happens in between |
| Spsc.StepIsLogged | include/fifo.hpp:81-152 | a slot changes only by a recorded write, a value is taken only by a recorded read, and an index store covers the accesses its side has made: the record on which race freedom rests is complete |
| Spsc.CallSucceedsIffBlockFits | include/fifo.hpp:81-152 | push and pushs return true exactly when the block fits beside the unread elements at the read index they loaded; nothing later changes the outcome |
| Spsc.PopFailsIffEmpty | include/fifo.hpp:95-108 | pop returns false exactly when all elements published at the loaded write index have been popped |
| Spsc.UnpublishedCopyIsInvisible | include/fifo.hpp:110-130 | during a call that ends in failure the consumer sees the same queue, less its own pops, whatever the call has written into the buffer |
| Spsc.FailedCallOverwrites | include/fifo.hpp:110-130 | over the run of a call that fails, exactly as many slots are written as were free at the read index it loaded; none if and only if the queue looked full |
| Spsc.FailedCallExample | include/fifo.hpp:110-130 | a run in which a failed call has overwritten a slot, and changed nothing else |
| Spsc.CallsAreWaitFree | include/fifo.hpp:41-47 | in any stretch of any run, a push call under way makes at most its length + 2 further steps of its own and has ended once it makes that many; a pop call three |
| Spsc.CallsAreNeverStuck | include/fifo.hpp:81-152 | in every state of the invariant each side can take its next step |
| Queue.IncrementIsNextSlot | include/fifo.hpp:56-61 | increment leads from the slot of an element to the slot of the next one, around the end of the buffer |
| UsartLine.RunSafety | arch/arm/cortex/stm32/common/usart_stream.hpp:52-89 | over every run with interrupts between any two main steps: a waiting character has TXEIE set or a flush still owed, and pushed = sent + waiting |
| UsartLine.TxBranchKeepsInv | arch/arm/cortex/stm32/common/usart_stream.hpp:65-73 | one interrupt sends the oldest waiting character, or clears TXEIE when there is none |
| UsartLine.DrainsInExactlyLengthPlusOne | arch/arm/cortex/stm32/common/usart_stream.hpp:65-89 | without further pushes TXEIE stays set for exactly len+1 interrupts, which send everything in order and leave it clear |
| UsartLine.EverythingPushedGetsSent | arch/arm/cortex/stm32/common/usart_stream.hpp:52-89 | from every reachable state between two push calls of the main program, an owed flush and then len+1 interrupts, all of them taken with TXEIE set, transmit all that was ever passed to a successful push call; nothing is owed afterwards and TXEIE is clear |
| UsartLine.FlushEnables | arch/arm/cortex/stm32/common/usart_stream.hpp:87-89 | a flush leaves TXEIE set, nothing owed and the queue alone |
| UsartLine.OwesIff | arch/arm/cortex/stm32/common/usart_stream.hpp:65-89 | over every run, a flush is owed exactly when none followed the last call that published a character |
| UsartLine.LineRunIsQueueRun | arch/arm/cortex/stm32/common/usart_stream.hpp:52-89 | every run of main program and interrupts is a run of the concurrent queue whose producer steps are the main program's |
| UsartLine.SentIsWhatWasPassed | arch/arm/cortex/stm32/common/usart_stream.hpp:52-89 | what was sent followed by what waits is the concatenation of the blocks passed to successful push calls |
| UsartLine.StaleLoadLosesWakeupIff | arch/arm/cortex/stm32/common/usart_stream.hpp:65-73 | with a stale index load the wakeup property is lost exactly when a filled queue looks empty and no flush is owed |
| UsartLine.StaleLoadExample | arch/arm/cortex/stm32/common/usart_stream.hpp:65-73 | a run from the initial state to one in which a stale load loses the wakeup |
| RingBuffers.RingBuffer.Reset | include/fifo.hpp:76-79 | the queue is empty afterwards |
| RingBuffers.RingBuffer.Push | include/fifo.hpp:81-93 | appends one element if and only if fewer than size-1 are queued |
| RingBuffers.RingBuffer.Pop | include/fifo.hpp:95-108 | removes and returns the oldest element, false if and only if empty |
| RingBuffers.RingBuffer.Pushs | include/fifo.hpp:110-130 | appends the string before the first NUL entirely or not at all, true if and only if it fits |
| RingBuffers.RingBuffer.PushsCount | include/fifo.hpp:132-152 | the same for a counted block |
| Queue.OneByOneAcceptsPrefix | include/fifo.hpp:81-152 | offering the elements of a block one by one accepts its longest prefix that fits, hence the whole block, with the same queue, exactly when the block as a whole is accepted |
| RingBuffers.PushEach | include/fifo.hpp:81-152 | push() of each element in turn leaves the same queue as pushs() of the block when the block fits, and otherwise appends its longest prefix that fits |
| UsartStreams.UsartStream.Open | arch/arm/cortex/stm32/common/usart_stream.hpp:101-108 | both queues are empty and the accounts of characters start again; the USART, its interrupt channel and the RXNE and PE interrupts are enabled, TXEIE is kept |
| UsartStreams.UsartStream.Close | arch/arm/cortex/stm32/common/usart_stream.hpp:117-121 | what open() enabled is disabled; queues, accounts and TXEIE are kept |
| UsartStreams.UsartStream.Isr | arch/arm/cortex/stm32/common/usart_stream.hpp:52-74 | exact effect on both queues, TXEIE and the characters sent, keeping accepted = sent + waiting and received = consumed + waiting |
| UsartStreams.UsartStream.Flush | arch/arm/cortex/stm32/common/usart_stream.hpp:87-89 | sets TXEIE and nothing else |
| UsartStreams.UsartStream.Receive | lib/include/terminal.hpp:101 | takes the oldest received character, the account of consumed characters growing by it |
| UsartStreams.FifoStream.Put | lib/include/fifo_stream.hpp:40-43 | the accepted stream grows by the character exactly when it fits |
| UsartStreams.FifoStream.Write | lib/include/fifo_stream.hpp:45-48 | the same for a counted block |
| UsartStreams.FifoStream.Puts | lib/include/fifo_stream.hpp:50-53 | the same for a string |
| UsartStreams.FifoStream.Endl | lib/include/fifo_stream.hpp:60-66 | carriage return and newline are offered one after the other, each dropped if it does not fit, then TXEIE is set |
| Queue.AcceptedAppend | lib/include/fifo_stream.hpp:40-66 | what a sequence of output operations gets accepted is composed of what its parts get accepted |
| LineEditors.CallsExecuteLines | lib/include/terminal.hpp:97-126 | however a stream is divided among calls of process_input, cmd_buf is not overrun if and only if every CR-terminated line has fewer than 80 printable characters, and then the commands executed are exactly the non-empty lines without non-printables, in order |
| LineEditors.EditorExecutesLines | lib/include/terminal.hpp:97-126 | the same for one pass over a stream |
| Terminals.StreamTakesActions | lib/include/terminal.hpp:97-189 | for each non-empty line of such a stream, in order, the first hook of that name is run |
| LineEditors.CharacterCodes | lib/include/terminal.hpp:103-116 | a carriage return is character 13, and the characters kept are 32 to 126 |
| LineEditors.SplitJoin | lib/include/terminal.hpp:103-115 | the lines the editor is compared with are the CR-free pieces that join to the input |
| LineEditors.OverrunExample | lib/include/terminal.hpp:108-116 | 80 printable characters and a CR store the terminator outside of cmd_buf |
| Terminals.DispatchFindsFirst | lib/include/terminal.hpp:163-188 | the first hook of that name runs; help runs exactly when no hook takes the name |
| Terminals.Terminal.Return | lib/include/terminal.hpp:103-115 | a CR executes the C string in cmd_buf, which is the line typed, and starts a new line; it fails exactly on a full buffer; newline, command output and prompt are offered to the tx queue in order |
| Terminals.Terminal.ProcessInput | lib/include/terminal.hpp:97-126 | empties the rx queue and does what the character-wise editor does on its contents; the tx queue is offered the transcript of the input, each block accepted whole or not at all, all of it if there is room; TXEIE is set if there was input and kept otherwise; fails exactly on an overrun |
| Terminals.OutputIsTranscript | lib/include/terminal.hpp:97-126 | what the editor's operations write is the transcript read off the lines of the stream: for each line its echo, a newline, the reply and the prompt |
| Terminals.TypingShows | lib/include/terminal.hpp:116-122 | without a CR, and with room in cmd_buf, the transcript is exactly the printable characters with echo on, and nothing with echo off |
| Terminals.ReturnShows | lib/include/terminal.hpp:103-115 | the transcript of a CR: newline and prompt on an empty line; the output of the first hook of that name; the line and the not-found text; or the list of commands |
| Terminals.HelpShows | lib/include/terminal.hpp:198-206 | the list of commands shows for each hook in order its name, and its description in a column three blanks behind the longest name |
| TypeLists.MakeTypelistAppends | include/typelist_mpl.hpp:78-91 | building onto a list appends the flattened arguments, whatever the list |
| TypeLists.FlattenAppend | include/typelist_mpl.hpp:78-91 | flattening distributes over concatenation, keeping left-to-right order |
| TypeLists.FlattenItems | include/typelist_mpl.hpp:78-91 | flattening a flat list changes nothing |
| TypeLists.NestingIsIrrelevant | include/typelist.hpp:90-124 | grouping arguments into nested typelists, or adding voids, gives the same list |
| TypeLists.FilterContains | include/typelist_mpl.hpp:106-122 | a filtered list contains exactly the elements that satisfy the condition |
| TypeLists.FilterAppend | include/typelist_mpl.hpp:106-122 | filtering distributes over concatenation, keeping order |
| TypeLists.UniqueListIsFirstOccurrences | include/typelist_mpl.hpp:128-144 | unique filtering keeps exactly the first occurrences, in order |
| TypeLists.FirstOccurrencesProperties | include/typelist_mpl.hpp:128-144 | the result has no duplicates and the same elements |
| TypeLists.FirstOccurrencesPrefix | include/typelist_mpl.hpp:128-144 | what the result starts with depends only on what the list starts with: later elements never move earlier ones |
| RegMasks.CompatibleIffOrderIrrelevant | include/register.hpp:180-182 | the set/clear check of merge accepts exactly the pairs of masks whose order of application does not matter for any register value |
| RegMasks.AssignedBits | include/register.hpp:115-122 | an assignment sets the bits of the set mask, clears the other bits of the clear mask and keeps all others |
| RegMasks.AssignMerged | include/register.hpp:176-185 | a merged mask acts like its two parts one after the other |
| RegMasks.CroppedAssign | include/register.hpp:107-122 | using the cropped clear mask in a load-clear-set-store sequence is equivalent |
| RegMasks.MergeAllDefinedIff | include/register_mpl.hpp:43-65 | the right fold of merges is defined exactly when all elements are pairwise compatible and on one register |
| RegMasks.MergeAllIsLeast | include/register_mpl.hpp:43-65 | the merged mask has the bits of its parts and no others |
| RegMasks.MergeAllDependsOnElements | include/register_mpl.hpp:43-65 | permuting or repeating elements gives the same merged mask or the same failure |
| RegMasks.NeutralIsIdentity | include/register.hpp:311-320 | merging with the neutral mask on either side changes nothing |
| RegLists.CompileDefinedIff | include/register.hpp:387-390 | a reglist compiles exactly when no two of its masks on one register conflict |
| RegLists.CompiledShape | include/register_mpl.hpp:97-103 | the compiled list has the merged mask of each listed register, and no register twice |
| RegLists.CompiledOrder | include/register_mpl.hpp:97-103 | the compiled list is in the order in which the registers occur first |
| RegLists.SetPreservesMeaning | include/register.hpp:400-402 | applying the compiled list leaves every register as applying all items one at a time in list order does |
| RegLists.LastMaskDecides | include/register.hpp:129-140 | setting masks one at a time, the last mask that speaks of a bit decides it |
| RegLists.TestMeaning | include/register.hpp:153-165 | test() is false for an empty field, tells of a field of ones whether clear() would change anything, and of any other field whether set() would change nothing |
| RegLists.SetDependsOnElements | include/register.hpp:387-402 | lists with the same elements compile alike and have the same effect |
| RegLists.ItemsHoldAfterSet | include/register.hpp:153-165 | after set(), test() holds for every listed item with a non-empty clear mask |
| RegLists.ResetState | include/register.hpp:422-424 | reset_to() leaves a listed register at its reset value overlaid with its items, independent of prior contents, and others alone |
| RegLists.StrictDefinedIff | include/register.hpp:436-459 | strict_reset_to compiles exactly when all items are on strict registers and none conflict |
| RegLists.StrictResetState | include/register.hpp:436-448 | strict_reset_to leaves every strict register at its reset value overlaid with its items, whatever it held, and changes no other register |
| RegLists.ItemsHoldAfterStrictReset | include/register.hpp:153-170 | afterwards test() holds for every listed item with a non-empty clear mask |
| BitBand.SingleBit | include/register_mpl.hpp:211-222 | if bitcount is 1 the mask is 1 shifted by significant_bits - 1 |
| BitBand.BitCountIsOneIff | include/register_mpl.hpp:211-222 | bitcount is 1 exactly for the 32 single-bit masks |
| BitBand.AliasIsInjective | arch/arm/cortex/common/bitband.hpp:36-59 | aliases of word registers are words of the alias region, different for different bits or registers |
| BitBand.AliasSameIffSameBit | arch/arm/cortex/common/bitband.hpp:36-59 | two aliases coincide exactly for the same bit of memory |
| BitBand.AliasRoundTrip | arch/arm/cortex/common/bitband.hpp:36-59 | the alias of a bit maps back to its byte and its place in it, and every word of the alias region is the alias of the bit it maps to |
| RegisterFiles.ShortSet | include/register.hpp:129-140 | setting the single bit is the read-modify-write with the mask |
| RegisterFiles.ShortTest | include/register.hpp:153-165 | testing the single bit is testing the mask |
| RegisterFiles.RegisterFile.Set | include/register.hpp:129-140 | one store of the old value with the clear mask cleared and the set mask set, with or without the shortcut; none for the neutral mask |
| RegisterFiles.RegisterFile.Clear | include/register.hpp:142-151 | one store with the bits of the clear mask cleared, with or without the shortcut |
| RegisterFiles.RegisterFile.Test | include/register.hpp:153-165 | on every path, true exactly if set() would change nothing or, for a field of ones, exactly if clear() would change something |
| RegisterFiles.RegisterFile.ResetTo | include/register.hpp:167-170 | one store, after which the register is as if the mask had been set on its reset value, whatever it held, and the mask tests true |
| RegisterFiles.RegisterFile.ForEachSet | include/typelist_mpl.hpp:172-182 | set() on each element once, in order |
| RegisterFiles.WrittenInOrder | include/typelist_mpl.hpp:172-182 | the registers of masks that are not neutral are stored to in list order, once for each mask |
| RegisterFiles.RegisterFile.RegListSet | include/register.hpp:400-402 | the register file ends as after all items one at a time, items test true, unlisted registers are untouched and no register is written twice; items that are not neutral are stored in the order in which their registers occur first |
| RegisterFiles.RegisterFile.RegListResetTo | include/register.hpp:422-424 | listed registers end at their reset value overlaid with their items, others unchanged; each listed register is stored to exactly once, in the order of first occurrence, no other is |
| RegisterFiles.RegisterFile.RegListStrictResetTo | include/register.hpp:436-448 | the same for all strict registers, and every listed item tests true |
| SimBoards.StoreNestsAtMostTwice | include/register_access.hpp:102-114 | from any register file, any store terminates with at most two levels of nesting, its reactions being plain assignments in the order of the rules |
| SimBoards.StoreIsFlatIff | include/register_sim.hpp:64-76 | one level is enough exactly when the store triggers no edge |
| SimBoards.HarmlessDoesNotFire | projects/stm32f103stk-demo/src/sim_reactions.cpp:28-61 | setting a bit that a rule does not watch, or whose falling edge it watches, does not fire the rule |
| Boots.StoredCr | projects/stm32f103stk-demo/src/sim_reactions.cpp:31-38 | a store to RCC CR ends with the ready flags of the oscillators it switched on, other registers unchanged |
| Boots.StoredBdcr | projects/stm32f103stk-demo/src/sim_reactions.cpp:45-48 | a store that switches RTCEN on ends with LSERDY and RSF set, and no other change |
| Boots.StoredAdcCr2 | projects/stm32f103stk-demo/src/sim_reactions.cpp:53-55 | a store that switches SWSTART on ends with EOC set, and no other change |
| Boots.StoredSpiCr1 | projects/stm32f103stk-demo/src/sim_reactions.cpp:57-61 | a store that switches SPE on ends with TXE and RXNE set, and no other change |
| Boots.RsfClear | arch/arm/cortex/stm32/f1/include/arch/rtc.hpp:52-55 | clearing RSF raises it again exactly when it was up |
| Boots.RtcListCompiles | arch/arm/cortex/stm32/f1/include/arch/rtc.hpp:138-142 | the three settings of the backup domain compile to one mask |
| Boots.SimBoard.StoreNested | include/register_access.hpp:102-114 | store_impl restores its nesting counter, and the counter's peak is at most the depth that is enough for the store |
| Boots.SimBoard.Store | include/register_access.hpp:102-126 | from any register file the nesting counter peaks at one or two, at one if no rule fires; the registers end as the reactions say |
| Boots.SimBoard.Wait | arch/arm/cortex/stm32/f1/include/arch/rcc.hpp:79-91 | a wait loop is left exactly when its field is up on entry |
| Boots.SimBoard.StoreAll | include/register.hpp:422-424 | a block of stores leaves every register that no reaction is concerned with at the last value stored to it, and the clock and RTC control registers alone if it avoids them |
| Boots.ResetWritesMeaning | include/register.hpp:422-424 | if the block is that of reset_to() of a register list, that value is the reset value overlaid with all items listed for the register |
| Boots.SimBoard.ClockSetup | arch/arm/cortex/common/core.hpp:66-72 | with any early configuration that leaves CR, BDCR and CRL alone, all waits end exactly if HSEON implies HSERDY and PLLON implies PLLRDY before; then CR has the oscillator and PLL flags added, CFGR holds the configuration with SW and SWS at PLL, and the early stores have taken effect |
| Boots.SimBoard.SetPrescaler | arch/arm/cortex/stm32/f1/include/arch/rtc.hpp:99-104 | both waits end exactly if RTOFF is up before; both prescaler registers hold their part and configuration mode is left |
| Boots.PrescalerParts | arch/arm/cortex/stm32/f1/include/arch/rtc.hpp:101-102 | the two parts fit their registers and together are the low 20 bits |
| Boots.SimBoard.RtcInit | arch/arm/cortex/stm32/f1/include/arch/rtc.hpp:134-149 | all waits end exactly if RTOFF is up and RTCEN implies LSERDY and RSF before; then BDCR, CRL, PWR_CR and the prescaler registers have the exact values of a running RTC on the LSE clock, other registers are unchanged |
| Boots.SimBoard.Boot | projects/stm32f103stk-demo/src/kernel.cpp:53-61 | clock set-up, the stores of the resource list and RTC set-up end exactly from the register files meeting both conditions, provided the stores between leave BDCR and CRL to rtc::init(); then all clock and RTC registers have their exact final values (CR and CFGR if the resources leave them alone), and every register that no reaction is concerned with ends at its value from the resources or, failing that, the early list |
| Boots.ReadyBits | arch/arm/cortex/stm32/f1/include/arch/rcc.hpp:79-113 | the two conditions in terms of the bits of CR, BDCR and CRL |
| Boots.ResetBoots | arch/arm/cortex/stm32/f1/include/arch/reg/rcc.hpp:45-57 | the reset values meet the conditions; an oscillator on but not ready does not |
| VectorTables.TableEntries | arch/arm/cortex/common/vector_table.hpp:98-138 | the table compiles exactly when no interrupt number in range has two handlers; it has one entry per number from -15 on, holding its handler, or the default when absent or reserved (-9 to -6, and -3) |
| VectorTables.EntryMeaning | include/isr.hpp:52-75 | what the unique handler lookup yields, without the typelist filters |
| VectorTables.TableIsOrderIndependent | arch/arm/cortex/common/vector_table.hpp:98-138 | permuting the resources, at any depth of nesting, gives the same table or the same failure |
| VectorTables.ResourceOrderIsIrrelevant | include/register.hpp:477-485 | reordering the resources changes neither acceptance nor effect of the register configuration |
| TimePoints.TimePoint.AddNs | projects/stm32f103stk-demo/src/timepoint.hpp:51-60 | absolute time advances by exactly the ticks of the 32-bit formula, modulo the cycle of the systick count, the counter staying in range |
| TimePoints.TicksMeaning | projects/stm32f103stk-demo/src/timepoint.hpp:51-60 | these ticks are one more than fit into the 32-bit picosecond count |
| TimePoints.LessIsAbsOrder | projects/stm32f103stk-demo/src/timepoint.hpp:68-76 | operator< is the order of absolute times |
| TimePoints.DiffIsAbsDifference | projects/stm32f103stk-demo/src/timepoint.hpp:62-99 | TimePointDiff stands for the difference of absolute times, and its tick count is that difference modulo 2^32 |
| TimePoints.NeverEarlyIff | projects/stm32f103stk-demo/src/time.cpp:36-44 | nanosleep cannot return early if and only if ns * 1000 fits 32 bits and the end time does not wrap, or ns is 0 |
| TimePoints.OverflowExample | projects/stm32f103stk-demo/src/timepoint.hpp:51-60 | at 72 MHz, a sleep of 5 ms can return with too little time elapsed, because of the overflow |
| TimePoints.WrapExample | projects/stm32f103stk-demo/src/time.cpp:36-44 | a sleep of 1 ms begun in the last systick returns at once |
| TimePoints.Nanosleep | projects/stm32f103stk-demo/src/time.cpp:36-44 | the loop ends at the first reading not before the end time that add_ns computes |
| TimePoints.SleepIsLongEnough | projects/stm32f103stk-demo/src/time.cpp:36-44 | on monotone readings the elapsed time is then at least ns |
| Debouncers.PollsAreRightIff | lib/include/debouncer.hpp:51-64 | over every history: each poll returns true exactly when the current run of equal samples began at least the waiting time ago and differs from the value reported last, if and only if no sample that starts a run of another value is closer to the clock's wrap than the waiting time |
| Debouncers.ValueIsDebounced | lib/include/debouncer.hpp:51-72 | under that condition get() is the last value that has settled |
| Debouncers.WrappedWaitReportsAtOnce | lib/include/debouncer.hpp:54-60 | the first wait that wraps is not waited for: the value is reported at the poll that first sees it |
| Debouncers.WrapExample | lib/include/debouncer.hpp:54-60 | a history with a wrong poll |
| Debouncers.RunStartIsMaximal | lib/include/debouncer.hpp:51-64 | the run the property speaks of is the longest run of equal samples at the end of the history |
| Debouncers.Debouncer.Poll | lib/include/debouncer.hpp:51-64 | the same for the object against its full history, under the exact condition; get() changes exactly when poll returns true |
| Digits.TextRoundTrip | lib/include/poorman_cstring.hpp:36-84 | parsing the n characters gives the value back when it has at most n digits; otherwise the text is ~ and the low n-1 digits |
| Digits.PaddedText | lib/include/poorman_cstring.hpp:36-84 | for any padding: the digits of the value, without leading zeros, right-aligned behind the padding, or ~ and the low n-1 digits |
| Digits.LowDigitsMeaning | lib/include/poorman_cstring.hpp:73-76 | the low k digits denote the remainder modulo base^k |
| Digits.DigitChars | lib/include/poorman_cstring.hpp:45-48 | the digits are 0 to 9 and a to f |
| Digits.FitsIff | lib/include/poorman_cstring.hpp:73-76 | digit extraction exhausts the value in k steps exactly when it is below base^k |
| Digits.Itoa | lib/include/poorman_cstring.hpp:68-84 | the loops write exactly that text and a terminating zero, and nothing behind it |
| Digits.StreamHex | lib/include/poorman_ostream.hpp:49-55 | the stream puts the digits of the value, most significant first, at full width |
| Digits.HexFormsAgree | lib/include/poorman_cstring.hpp:37-56 | itoa_hex at its default width writes what the stream writes |
| BaudRates.BrrAccurateIff | arch/arm/cortex/stm32/common/usart.hpp:51-61 | the template compiles exactly when both fields fit, and then agrees with the run-time value and is accurate; the run-time value is accurate exactly when the rounded fraction does not carry |
| BaudRates.LostCarryExample | arch/arm/cortex/stm32/common/usart.hpp:139-146 | a clock and baud rate for which the carry is lost |

## Left out

- Register access permissions (ro, wo, rw): a compile-time check of each access on its own.
- Registers of distinct type at one address: the simulation keeps them apart, the hardware does not; the model keeps them apart.
- `reglist::merged_regmask`, `reglist::clear`, `regbits::set_from` and the other value forms: easy once merging and single accesses are proved.
- `merged_regmask` over lists with voids: typelists never contain them.
- What a terminal hook writes: its output is an arbitrary list of blocks for each command executed (`Setup.replies`), given beforehand; what else it does, flushing included, is not part of the model.
- The state of the terminal after an overrun of cmd_buf, and `terminal::close()`, which drops the line being typed.
- Input arriving while process_input runs: the class takes the calls one after the other; interleaving on the rx queue is covered by Spsc.
- Interrupt counters and error flags of the stream, and `counted_ring_buffer`: plain counters.
- Reset of a queue while the other side uses it: the source forbids it.
- The weak memory model is that of release stores and acquire loads on the two indices; compiler and hardware reordering beyond the standard's rules is not modelled.
- The thread start and stop of the simulated terminal among the reactions: it changes no register.
- SimBoard.Boot: stores to BDCR or CRL before `rtc::init()` are not covered; the demo makes none.
- The content of the early configuration (flash latency) and of the resource list: any stores that leave the registers named in `ClockSetup` and `Boot` alone; the alarm and counter of the RTC, and all peripheral timing.
- `TimePoint::set` reading count and counter in two loads, and a counter equal to counter_base, which the hardware can show for one tick: samples are taken as consistent and in range.
- `TimePoint::get_ns` beyond the tick count: its conversion factor is inverted.
- Signed `itoa`: it prints a minus sign for every value.
- Digits.Itoa: one method for the decimal and the hexadecimal printer, whose loops differ only in the base.
- The width of the list of commands where the compiler cannot evaluate strlen at compile time (lib/include/terminal.hpp:190-192).
- GPIO, SPI, LCD, joystick and radio drivers, the F4 clock tables and the demo's screen: thin wrappers over register access.
