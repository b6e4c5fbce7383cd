# Proofs about the MyCPU system-on-chip

This project models the parts of a RISC-V system-on-chip, and of the bare-metal C and Python programs around it, whose
correctness needs more than reading one function, and proves that they keep their promises over every run. Each hardware
register is a field, each clock edge one step that computes all next values from the old ones, and combinational modules
are functions. Code that changes state is a class or a method proved against such a step or a specification function;
the lemmas are about those functions and about all runs of them. `dafny verify dfyconfig.toml` covers the whole project.

`Basics` and `Words` hold what the others share.

**Pipeline** (`PipelineCpu`, `PipelineInOrder`, `PipelineIssue`, `PipelineProgram`, `PipelineRepeats`,
`PipelineCounterexample`, `PipelineClocked`, `Arithmetic`, `WordBits`, `Decode`, `Conformance`, `Architecture`). The five
stages with forwarding, hazards, stalls and the memory stage's state machine, generic in the ALU and memory, against
execution of one instruction at a time; ALU and decoder against the instruction set manual, each result stated bit by bit
or by the equation that determines it. *A finding:* when a store in MEM is released while a load waits in EX, the
store-then-load stall holds ID without flushing ID2EX, so what stands in ID is captured twice. Instructions are captured in
order over every run exactly when no load directly follows a store. Registers and memory are those of sequential execution
over every run exactly when each instruction right after such a store and load that does not need the loaded value does the
same, where the program reaches it, when executed twice; an instruction that does not read its own destination always does. A program is given whose run
increments x1 twice.

**Memory path** (`LoadStore`, `Axi4Lite`, `BusFabric`, `BusProtocol`, `BusClocked`, `Chip`, `ChipClocked`,
`ChipProgress`). Address latch, master, switch with eight distinct slaves, and byte-strobed word memories behind arbitrary
read latencies. A joint phase invariant gives handshake stability (ARM IHI 0022, section A3.2.1), routing, a falling rank,
and refinement of an atomic byte memory; `Chip` composes pipeline and bus, `Architecture` compares it with the manual's
account of each instruction, and `ChipProgress` bounds the cycles per instruction, for
devices that answer within some number of cycles of being asked.

**UART** (`UartLink`, `UartOverflow`, `UartPort`, `UartClocked`). Transmitter, synchroniser and receiver with independent
counters; the receive FIFO with its interrupt flag behind the bus slave. *A finding:* the divisor of the first sample is
computed from `3 * frequency` in 32-bit arithmetic. With at least five clocks per bit and divisors that fit their 16-bit
registers, the link delivers every sequence of bytes exactly when that product does not wrap round, that is below
715827883 Hz; at 1.5 GHz and 115200 baud every byte sent on its own is received shifted by one bit.

**Predictors** (`ReturnStack`, `BranchTargets`, `IndirectTargets`). Each small cache against an unbounded specification
of the same history. *A finding:* in the indirect buffer two entries for one address may reach the age limit together; the
next lookup of that address makes both young, and a key reported since may then be the one that a new key replaces. Where no
lookup meets such a tie, a buffer of n entries holds every key of the last n cycles.

**Frame codec and video** (`FrameCodec`, `FrameOffsets`, `FrameTools`, `VideoUpload`, `VideoScan`, `Animation`). The Python encoders and
decoders and the C decoders for any frame size, the display's upload port and pixel pipeline, and all of them put
together, from compressed frames to screen pixels. *A finding:* the frame offsets and the data size pass through 16-bit
variables, so the bytes of the frames are read back exactly when the compressed animation is shorter than 65536 bytes, and
an animation without repeated frames is shown right exactly then. A flickering animation of twelve frames compresses to
98316 bytes, so one of its frames is shown wrong.

**Tetris** (`TetrisGrid`, `TetrisGame`, `TetrisRules`, `TetrisField`, `TetrisPlay`). Grid, pieces, shape bag and the main
loop, with the counters' wrap-around written out; `TetrisRules` tells by coordinates what every input, the clock and a
locked piece do, and every pass of every game follows it. *A finding:* of the shapes one turns clockwise and all others
anticlockwise.

**Terminal** (`DirtyTiles`, `DirtyLists`, `ScreenBuffers`, `ScreenRefresh`, `ScreenSessions`, `VectoredOutput`). Dirty marking, the shared
node pool, the three refresh scans, and the vectored output buffer. *A finding:* the 512 nodes are shared by tiles and
blocks. Every session leaves the screen up to date after each refresh if and only if the lists are not used (more than 128
by 64 tiles, or sparse tracking off) or tiles and blocks together are at most 512. On every other screen, one write per
block and then one per tile leave a written cell that the next refresh does not show.

Registers that the hardware leaves without a reset value are arbitrary in `VideoScan` and irrelevant (entries not valid)
in the predictors. The environment (fetch and device latencies, what a bus read returns outside a read, terminal inputs,
random numbers, results of system calls) is a parameter of every run.

## Model

| member | source | states |
|---|---|---|
| PipelineInOrder.ExecutesWhatItIssued | 4-soc/src/main/scala/riscv/core/PipelinedCPU.scala:303-482 | For every program of OP, OP-IMM, M, LUI, AUIPC, LOAD and STORE instructions, every fetch rhythm, bus latency and cycle count, the registers (with the WB instruction applied) and memory are those of executing the committed instructions one at a time, and every in-flight operand, result and bubble is accounted for |
| PipelineInOrder.ForwardIsResult | 4-soc/src/main/scala/riscv/core/MemoryAccess.scala:131-271 | In a cycle without a memory stall the value the MEM stage forwards is the architectural result of its instruction, loads included |
| PipelineInOrder.ExOperandOk | 4-soc/src/main/scala/riscv/core/Forwarding.scala:80-137 | The operand EX selects from its latch, MEM or WB is the architectural value of its source register, for every mix of bubbles and destinations |
| PipelineInOrder.IdOperandOk | 4-soc/src/main/scala/riscv/core/Forwarding.scala:80-137 | The operand ID captures, from the register file's write-through port or by ID forwarding, becomes the architectural value once EX forwarding has had its turn |
| PipelineInOrder.EffectOnCommitted | 4-soc/src/main/scala/riscv/core/MemoryAccess.scala:131-271 | A store is committed in the cycle the bus accepts it, any other instruction when it leaves MEM, and nothing is committed twice or dropped |
| PipelineInOrder.StateStep | 4-soc/src/main/scala/riscv/core/PipelinedCPU.scala:303-482 | One clock edge, stalled or not, keeps the whole in-flight invariant |
| PipelineIssue.HazardsInClass | 4-soc/src/main/scala/riscv/core/Control.scala:323-408 | For the class the hazard unit's outputs reduce to load-use stalls with flush and store-then-load stalls without one |
| PipelineIssue.IssuesExpansion | 4-soc/src/main/scala/riscv/core/Control.scala:323-408 | Over every run ID2EX captures exactly the fetched instructions in order, each once, except the one held in ID behind a store directly followed by a load, which is captured twice |
| PipelineProgram.FetchesProgram | 4-soc/src/main/scala/riscv/core/PipelinedCPU.scala:303-482 | Over every run the fetched instructions are the program from its entry address, at consecutive addresses, interleaved with NOPs for unanswered fetches |
| PipelineProgram.AddressIs | 4-soc/src/main/scala/riscv/Parameters.scala:64 | Instruction k of the program is at 0x1000 + 4 k, modulo 2^32 |
| PipelineProgram.RunsInProgramOrder | 4-soc/src/main/scala/riscv/core/PipelinedCPU.scala:303-482 | With no load directly after a store, registers and memory equal sequential execution of a prefix of the program, for every memory latency, fetch rhythm and cycle count |
| PipelineProgram.PairBreaksOrder | 4-soc/src/main/scala/riscv/core/Control.scala:389-407 | A store directly followed by a load anywhere in the program has a run in which an instruction is captured twice |
| PipelineProgram.InOrderExactlyWhen | 4-soc/src/main/scala/riscv/core/Control.scala:323-408 | Instructions are captured in order, each once, over every run if and only if no load directly follows a store in the program |
| PipelineRepeats.SequentialExactlyWhen | 4-soc/src/main/scala/riscv/core/Control.scala:323-408 | For every ALU, memory, program and start: over every run registers and memory equal sequential execution of the program as far as it has got, if and only if every instruction two behind a directly following store and load, unless it needs the loaded value, does the same when executed twice where the program reaches it |
| PipelineRepeats.RunsSequentially | 4-soc/src/main/scala/riscv/core/PipelinedCPU.scala:303-482 | The first half of that, over every run, repetitions counted once |
| PipelineRepeats.RunsTwice | 4-soc/src/main/scala/riscv/core/Control.scala:389-407 | At the first instruction where repeating does harm, some run has executed the program up to it and that instruction twice |
| PipelineRepeats.SequentialIfNothingReread | 4-soc/src/main/scala/riscv/core/Control.scala:323-408 | Results are sequential over every run if each such instruction does not read its own destination, or is a store into a memory where writing the same twice is writing it once |
| PipelineCounterexample.IncrementRunsTwice | 4-soc/src/main/scala/riscv/core/Control.scala:389-407 | A concrete program, store, load, increment of x1, has a run that leaves 2 in x1 with three instructions executed, more than sequential execution shows after any number of instructions up to those committed |
| PipelineCounterexample.InOrderResult | 4-soc/src/main/scala/riscv/core/PipelinedCPU.scala:303-482 | Sequential execution of that program counts in x1 how often the address space was gone through, for any number of instructions, and so shows at most 1 before the second round |
| PipelineClocked.PipelineRegister.Clock | 4-soc/src/main/scala/riscv/core/PipelineRegister.scala:31-41 | Flush beats stall, stall holds, otherwise the input is captured |
| PipelineClocked.RegisterFile.Clock | 4-soc/src/main/scala/riscv/core/RegisterFile.scala:37-44 | Writing changes exactly the named register and never x0 |
| PipelineClocked.RegisterFile.Read | 4-soc/src/main/scala/riscv/core/RegisterFile.scala:46-67 | A read port returns what the register will hold after this cycle's write, zero for x0 |
| PipelineClocked.PipelinedCpu.Clock | 4-soc/src/main/scala/riscv/core/PipelinedCPU.scala:303-482 | Four pipeline registers, the register file, program counter and memory stage, clocked one after another, step as the machine the theorems are about |
| Decode.DecodesRegister | 4-soc/src/main/scala/riscv/core/InstructionDecode.scala:45-128 | Decoding undoes assembling a register-register word: registers, ALU function, operand sources and enables |
| Decode.DecodesImmediate | 4-soc/src/main/scala/riscv/core/InstructionDecode.scala:45-128 | Decoding undoes assembling an immediate or load word, with the 12-bit immediate sign-extended |
| Decode.DecodesStore | 4-soc/src/main/scala/riscv/core/InstructionDecode.scala:45-128 | Decoding undoes assembling a store word, with the split immediate rejoined and sign-extended and no register write |
| Decode.DecodesUpper | 4-soc/src/main/scala/riscv/core/InstructionDecode.scala:45-128 | Decoding undoes assembling LUI and AUIPC words |
| Decode.WordsAsDrawn | 4-soc/src/main/scala/riscv/core/InstructionDecode.scala:45-128 | The words assembled have opcode, registers, functions and immediate in the places the manual gives them |
| Decode.SupportedInClass | 4-soc/src/main/scala/riscv/core/InstructionDecode.scala:62-121 | Every word of the six formats decodes to an instruction of the class the pipeline theorems cover |
| Decode.ChipRunsWords | 4-soc/src/main/scala/riscv/core/PipelinedCPU.scala:303-482 | The pipeline, bus and devices with the real decoder and ALU execute any such program of machine words in the order of the decoded instructions, if no store word is directly followed by a load word |
| Architecture.InstructionDoes | 4-soc/src/main/scala/riscv/core/InstructionDecode.scala:45-128 | Every assembled instruction of the class, decoded, computed and executed, changes registers and memory bytes as the manual says of it, for every state in which its access stays within a word |
| Architecture.DoesOneThing | 4-soc/src/main/scala/riscv/core/ALU.scala:47-119 | The manual's account determines the next registers and memory bytes |
| Architecture.ChipImplementsArchitecture | 4-soc/src/main/scala/riscv/core/CPU.scala:69-83 | Over every run of pipeline, bus and devices, for every latency, the visible state is the end of a history of machine states in which each instruction within a word does what the manual says, for every program whose instructions after a store and load depend on the load, are stores, or do not read their own destination |
| LoadStore.LoadReturnsBytes | 4-soc/src/main/scala/riscv/core/MemoryAccess.scala:144-186 | For every access within a word, a load returns the addressed bytes, sign- or zero-extended as its width says |
| LoadStore.StoreChangesExactly | 4-soc/src/main/scala/riscv/core/MemoryAccess.scala:227-265 | For every access within a word, a store changes exactly its bytes to the matching bytes of the value |
| LoadStore.StrobeLanes | 4-soc/src/main/scala/riscv/core/MemoryAccess.scala:232-265 | The strobes of a store within a word select exactly its bytes |
| Axi4Lite.AxiSlave.Clock | 4-soc/src/main/scala/bus/AXI4Lite.scala:171-245 | The slave's registers after one clock edge, in every state, are those of the step function the protocol theorems use |
| Axi4Lite.AxiMaster.Clock | 4-soc/src/main/scala/bus/AXI4Lite.scala:299-366 | The master's registers after one clock edge, in every state, are those of the step function the protocol theorems use |
| BusClocked.Interconnect.Clock | 4-soc/src/main/scala/bus/BusSwitch.scala:55-73 | The two selection registers and the address latch, updated in place, follow the composed system's step |
| BusClocked.Bus.Clock | 4-soc/src/main/scala/bus/BusSwitch.scala:49-113 | Master, wires, eight slaves and their devices, each clocked in place on what the others showed before the edge, step as the fabric the theorems are about |
| BusClocked.Bus.Run | 4-soc/src/main/scala/bus/BusSwitch.scala:49-113 | After any number of edges the clocked bus is in a phase of a transaction, and whatever comes next finds its handshakes stable and its routing right |
| BusFabric.PhaseStep | 4-soc/src/main/scala/bus/AXI4Lite.scala:171-366 | From any joint state in a phase of a transaction every clock edge leads to the next phase, for every request and every device latency |
| BusProtocol.AlwaysInPhase | 4-soc/src/main/scala/bus/BusSwitch.scala:49-113 | Every reachable joint state of latch, master, switch, eight slaves and devices is in a phase |
| BusProtocol.ValidsHeld | 4-soc/src/main/scala/bus/AXI4Lite.scala:171-366 | In every reachable state each VALID that has not met its READY stays raised with unchanged payload (ARM IHI 0022, section A3.2.1) |
| BusProtocol.AlwaysRouted | 4-soc/src/main/scala/bus/BusSwitch.scala:49-113 | In every reachable state the slave whose 512 MiB region holds the master's address, and no other, sees each VALID with its payload; what the master is told is what that slave says; all others are quiet; devices are asked only for addresses of their own region |
| LoadStore.SelectsRegion | 4-soc/src/main/scala/bus/BusSwitch.scala:49-50 | Slave j is selected exactly for the addresses from 0x20000000 * j up to the next slave's |
| LoadStore.WordsByRegion | 4-soc/src/main/scala/bus/BusSwitch.scala:49-113 | A word is read from the device of its address's region and written to that one alone |
| BusProtocol.RankFalls | 4-soc/src/main/scala/bus/AXI4Lite.scala:171-366 | On every cycle of a transaction a lexicographic rank over both machines strictly falls, unless the cycle waits for the device, when nothing changes |
| BusProtocol.TransactionsFinish | 4-soc/src/main/scala/bus/AXI4Lite.scala:171-366 | Every started transaction ends within its rank plus the device's waiting cycles, so none deadlocks |
| BusProtocol.MemoryStep | 4-soc/src/main/scala/bus/AXI4Lite.scala:187-245 | A write takes effect on the memory a reader can see in the cycle that accepts it, exactly once, and nothing else changes that memory |
| Chip.ChipRefinesPipeline | 4-soc/src/main/scala/riscv/core/CPU.scala:69-83 | Pipeline plus bus refines, cycle by cycle, the pipeline with an atomic memory |
| Chip.ChipRunsInProgramOrder | 4-soc/src/main/scala/riscv/core/CPU.scala:69-83 | With no load directly after a store, registers and devices equal sequential execution of a prefix of the program, for every latency of every device |
| Chip.OneTransactionEach | 4-soc/src/main/scala/riscv/core/MemoryAccess.scala:131-271 | Over every run each captured load and store, repetitions included, causes exactly one bus transaction, and each store exactly one write pulse |
| Chip.OneTransactionPerAccess | 4-soc/src/main/scala/riscv/core/MemoryAccess.scala:131-271 | With no load directly after a store, transactions and write pulses are exactly those of the loads and stores of a prefix of the program, and never one that the program does not make |
| Chip.ChipRunsSequentially | 4-soc/src/main/scala/riscv/core/CPU.scala:69-83 | Registers and devices equal sequential execution of the program as far as it has got, for every latency, if every instruction captured twice does the same done twice |
| ChipProgress.CyclesAccounted | 4-soc/src/main/scala/riscv/core/CPU.scala:69-83 | Over every run the cycles are at most ten for each instruction retired, and one more, plus those spent waiting for a device |
| ChipProgress.InstructionsComplete | 4-soc/src/main/scala/riscv/core/CPU.scala:69-83 | If no device leaves a read unanswered for more than b cycles, any number of cycles is at most 10 + b for each instruction retired and one more, so instructions retire without end |
| ChipProgress.AtOnceAnswers | 4-soc/src/main/scala/peripheral/UART.scala:229-232 | Devices that deliver in the cycle they are asked, as UART and display do, satisfy this with b = 0, however silent they are otherwise |
| ChipProgress.RegularAnswers | 4-soc/src/main/scala/bus/AXI4Lite.scala:171-245 | Devices that are ready once in every b + 1 cycles, asked or not, satisfy it for every program |
| ChipProgress.ProgramAdvances | 4-soc/src/main/scala/riscv/core/CPU.scala:69-83 | If moreover every fetch is answered, the number of cycles is at most (10 + b) * (2 * n + 3) when the program has advanced by n instructions, so it advances without end |
| ChipClocked.Computer.Clock | 4-soc/src/main/scala/riscv/core/CPU.scala:69-83 | The clocked pipeline and the clocked bus, each seeing the other's registers as they were, step as the chip the theorems are about |
| ChipClocked.RunProgram | 4-soc/src/main/scala/riscv/core/CPU.scala:69-83 | Clocking the chip in place through any run executes such a program as the manual says: the registers at the end are those of the last state of a history of its instructions |
| UartLink.DivisorsSound | 4-soc/src/main/scala/peripheral/UART.scala:49-96 | For a clock of at least five times the baud rate, 4 <= BIT_CNT <= START_CNT <= 2 * BIT_CNT if and only if 3 * frequency does not wrap round in 32 bits |
| UartLink.DivisorsNearest | 4-soc/src/main/scala/peripheral/UART.scala:49-96 | BIT_CNT + 1 is the number of clocks nearest to one bit, and START_CNT + 1 that nearest to one and a half |
| UartLink.LinkAlwaysOk | 4-soc/src/main/scala/peripheral/UART.scala:41-173 | Over every run receiver and transmitter stay in step: each sample falls in its own bit, despite two unsynchronised counters and the two-stage synchroniser |
| UartLink.LinkDelivers | 4-soc/src/main/scala/peripheral/UART.scala:41-173 | For every frequency and baud rate with at least five clocks per bit, divisors that fit 16 bits and 3 * frequency within 32 bits, and every way of offering bytes, the delivered bytes are a prefix of the accepted ones, at most two behind, and all of them when the sender is idle |
| UartLink.EverythingArrives | 4-soc/src/main/scala/peripheral/UART.scala:41-173 | Every accepted byte arrives within a bound given by the transmitter's counters |
| UartOverflow.DeliversExactlyWhen | 4-soc/src/main/scala/peripheral/UART.scala:49-96 | With at least five clocks per bit and divisors that fit 16 bits, delivery holds for every way of offering bytes if and only if 3 * frequency does not wrap round in 32 bits |
| UartOverflow.HastyMisreads | 4-soc/src/main/scala/peripheral/UART.scala:96-127 | A receiver whose first sample falls in the start bit receives every byte sent on its own shifted by one bit |
| UartOverflow.FastClockMisreads | 4-soc/src/main/scala/peripheral/UART.scala:96 | At 1.5 GHz and 115200 baud the divisors are 13020 and 889, and a byte is misread |
| UartPort.InterruptAndReads | 4-soc/src/main/scala/peripheral/UART.scala:208-264 | Over every run each accepted read address gives one read cycle whose answer is held, bytes leave in arrival order and only through reads of RX_DATA, and without a software write to INTERRUPT the flag is set exactly when the FIFO holds data |
| UartPort.ReadsTakeInOrder | 4-soc/src/main/scala/peripheral/UART.scala:208-264 | Over every run the FIFO holds the accepted bytes after the first n, n being the number of cycles in which address 0x0c was read with data present; a byte is accepted exactly when fewer than four are held or 0x0c is being read |
| UartPort.ReadsBring | 4-soc/src/main/scala/peripheral/UART.scala:226-246 | Over every run a read brings in the next cycle: from STATUS bit 0 the transmitter ready and bit 1 data present, from RX_DATA the next byte in order of arrival, from BAUD_RATE the rate, elsewhere zero |
| UartPort.InterruptTells | 4-soc/src/main/scala/peripheral/UART.scala:248-264 | Over every run without a write to 0x08 the interrupt is set exactly while an accepted byte is still to be read |
| UartPort.ManualWrite | 4-soc/src/main/scala/peripheral/UART.scala:252-264 | At the edge of a software write to INTERRUPT flag and FIFO agree exactly when the value written says whether data is present |
| UartPort.WrongUntilSettled | 4-soc/src/main/scala/peripheral/UART.scala:252-264 | Over every run without a further write a wrong flag stays wrong exactly until the next byte enters the FIFO or the last one leaves it, and a right one stays right |
| UartClocked.Transmitter.Clock | 4-soc/src/main/scala/peripheral/UART.scala:52-77 | The transmitter's registers follow the step function of the link theorems |
| UartClocked.Receiver.Clock | 4-soc/src/main/scala/peripheral/UART.scala:99-127 | The receiver's registers follow the step function of the link theorems |
| UartClocked.ByteBuffer.Clock | 4-soc/src/main/scala/peripheral/UART.scala:139-156 | The one-byte buffer follows the step function of the link theorems |
| UartClocked.SerialLink.Clock | 4-soc/src/main/scala/peripheral/UART.scala:159-173 | Buffer, transmitter and receiver, clocked in place over one wire, step as the link the theorems are about |
| UartClocked.Transfer | 4-soc/src/main/scala/peripheral/UART.scala:41-173 | A link of these objects, clocked in place from reset, hands over what it accepted, in order |
| ReturnStack.PredictsIdealTop | 4-soc/src/main/scala/riscv/core/ReturnAddressStack.scala:63-104 | Over every run of push, pop and both, the entries are the top of an unbounded call stack, so every valid prediction is its top |
| ReturnStack.EntriesExactly | 4-soc/src/main/scala/riscv/core/ReturnAddressStack.scala:63-104 | Over every run the entries are exactly the top k of the unbounded stack, k counted by pushes up to the depth and pops down to zero |
| ReturnStack.BalancedCalls | 4-soc/src/main/scala/riscv/core/ReturnAddressStack.scala:76-104 | For every balanced call tree no deeper than the stack, every return is predicted, and min(entries, depth - nesting) of the earlier top entries are left |
| ReturnStack.BalancedRun | 4-soc/src/main/scala/riscv/core/ReturnAddressStack.scala:76-104 | The same of the stack's own run of the calls and returns, one command after another, from any earlier run |
| ReturnStack.ReturnPredicted | 4-soc/src/main/scala/riscv/core/ReturnAddressStack.scala:63-104 | In such a run every return finds an entry, and it is the top of the unbounded stack |
| ReturnStack.ReturnAddressStack.Clock | 4-soc/src/main/scala/riscv/core/ReturnAddressStack.scala:71-104 | The array and its height after one edge: restore first, then replace, push with shift-down, or pop |
| ReturnStack.ReturnAddressStack.Predict | 4-soc/src/main/scala/riscv/core/ReturnAddressStack.scala:66-68 | The prediction is valid exactly when an entry is, and is then the newest |
| ReturnStack.PredictAfter | 4-soc/src/main/scala/riscv/core/ReturnAddressStack.scala:63-104 | A stack clocked through any run of push, pop and both predicts exactly when pushes and pops leave an entry, and then the top of the unbounded call stack |
| BranchTargets.HitIsLatestTaken | 4-soc/src/main/scala/riscv/core/BranchTargetBuffer.scala:68-114 | Over every update sequence a hit yields the target of the latest taken update of that same instruction word, never another branch's |
| BranchTargets.PredictedAddress | 4-soc/src/main/scala/riscv/core/BranchTargetBuffer.scala:77-81 | Over every update sequence the predicted address is that latest target when the branch is predicted taken, and the next word otherwise |
| BranchTargets.CountersBounded | 4-soc/src/main/scala/riscv/core/BranchTargetBuffer.scala:89-113 | Over every update sequence every counter stays in 1 to 3 |
| BranchTargets.OneCounterPerBranch | 4-soc/src/main/scala/riscv/core/BranchTargetBuffer.scala:73-114 | Whatever else runs, an unaliased branch's entry behaves as one saturating counter driven by that branch's outcomes, and mispredicts as that counter does |
| BranchTargets.PredictsKnown | 4-soc/src/main/scala/riscv/core/BranchTargetBuffer.scala:68-114 | With aliasing too, over every update sequence: the direction is that of a counter which the branch's own outcomes adjust and a taken branch on the same entry clears, and the target its latest taken one |
| BranchTargets.TakenIsLearnt | 4-soc/src/main/scala/riscv/core/BranchTargetBuffer.scala:84-104 | After any run a taken branch is predicted taken, to its target, from the next cycle on |
| BranchTargets.LoopMispredictions | 4-soc/src/main/scala/riscv/core/BranchTargetBuffer.scala:77-113 | A branch taken n times then not, k times over from a miss without aliasing, is mispredicted k + 1 times when n >= 2 and 2k times when n is 1 |
| BranchTargets.BranchTargetBuffer.Predict | 4-soc/src/main/scala/riscv/core/BranchTargetBuffer.scala:73-81 | The predicted direction and address of the arrays are those of the entry sequence the theorems use |
| BranchTargets.BranchTargetBuffer.Clock | 4-soc/src/main/scala/riscv/core/BranchTargetBuffer.scala:84-114 | The arrays after one update are those of the step function the theorems use |
| BranchTargets.PredictAfter | 4-soc/src/main/scala/riscv/core/BranchTargetBuffer.scala:68-114 | A buffer clocked through any updates sends a fetch to the latest taken target of that instruction exactly when its counter, cleared by aliases, is at least 2, and otherwise to the next word |
| BranchTargets.CountWrong | 4-soc/src/main/scala/riscv/core/BranchTargetBuffer.scala:73-114 | A buffer asked before each update is wrong about an unaliased branch exactly as often as its own saturating counter |
| IndirectTargets.KeysUnique | 4-soc/src/main/scala/riscv/core/IndirectBTB.scala:123-164 | Over every run no two valid entries share address and register hash |
| IndirectTargets.HoldsLatestTarget | 4-soc/src/main/scala/riscv/core/IndirectBTB.scala:123-164 | Over every run each valid entry holds the target of the latest update for its own key |
| IndirectTargets.Learns | 4-soc/src/main/scala/riscv/core/IndirectBTB.scala:123-164 | After any run, what an update reports is predicted for its address from the next cycle on |
| IndirectTargets.HeldNext | 4-soc/src/main/scala/riscv/core/IndirectBTB.scala:123-164 | A key is held in the next cycle if and only if it is reported now, or was held and is not the first of the oldest that a new key costs its place in a full buffer |
| IndirectTargets.AgesCountTouches | 4-soc/src/main/scala/riscv/core/IndirectBTB.scala:111-163 | Over every run a valid entry's age is the number of touches since its own last touch, saturated at entries - 1 |
| IndirectTargets.AgesNext | 4-soc/src/main/scala/riscv/core/IndirectBTB.scala:109-163 | An update makes its own entry young, a lookup that hits the youngest matching ones; every other valid entry ages by one up to entries - 1; a lookup that misses changes nothing |
| IndirectTargets.RecentHeld | 4-soc/src/main/scala/riscv/core/IndirectBTB.scala:109-163 | If no lookup of the run finds two equally young entries for its address, every key reported in the last n cycles is held by a buffer of n entries |
| IndirectTargets.TiesCostTheRecent | 4-soc/src/main/scala/riscv/core/IndirectBTB.scala:111-120 | Without that condition it fails: a run of five cycles ties two entries, after which a key reported two cycles before loses its place |
| IndirectTargets.EvictsLeastRecent | 4-soc/src/main/scala/riscv/core/IndirectBTB.scala:138-148 | An evicted entry is the least recently touched, except among saturated ones |
| IndirectTargets.PredictsMostRecent | 4-soc/src/main/scala/riscv/core/IndirectBTB.scala:91-107 | A prediction is the latest target reported for that address under some hash, and no other hash of it was touched more recently, except among saturated entries |
| IndirectTargets.IndirectBuffer.Predict | 4-soc/src/main/scala/riscv/core/IndirectBTB.scala:91-107 | Hit, target and the set of most recent matches read from the arrays |
| IndirectTargets.IndirectBuffer.Clock | 4-soc/src/main/scala/riscv/core/IndirectBTB.scala:109-164 | The arrays after one cycle of lookup and update are those of the step function the theorems use |
| IndirectTargets.PredictAfter | 4-soc/src/main/scala/riscv/core/IndirectBTB.scala:91-164 | A buffer clocked through any lookups and updates predicts what the last update reported, hits exactly when a key of that address is held, and then gives the latest target of the most recently touched one, saturated ones aside |
| FrameCodec.BaselineRoundTrip | scripts/gen-nyancat-data.py:124-175 | Decoding a frame's run-length code gives the frame back, for any frame size |
| FrameCodec.DeltaRoundTrip | scripts/gen-nyancat-data.py:178-265 | Decoding a delta over the frame it was made against gives the new frame, for any frame size |
| FrameCodec.AnimationRoundTrip | scripts/gen-nyancat-data.py:272-290 | Decoding a compressed animation in order, each delta over the frame decoded before it, reproduces every frame |
| FrameCodec.BaselineStream | scripts/gen-nyancat-data.py:428-449 | In any stream of frame opcodes one without meaning does nothing wherever it stands, and what follows the end mark does not count |
| FrameCodec.DeltaStream | scripts/gen-nyancat-data.py:452-486 | The same in any stream of delta opcodes |
| FrameCodec.OffsetsExactlyWhen | 4-soc/csrc/nyancat.c:115-121 | The bytes of every frame are read back whole through the 16-bit offset table if and only if the compressed animation is shorter than 65536 bytes |
| FrameCodec.SliceBroken | 4-soc/csrc/nyancat.c:116-119 | A frame whose end offset is the first to need more than 16 bits is not read back |
| FrameOffsets.ShownExactlyWhen | 4-soc/csrc/nyancat.c:115-121 | For an animation in which each frame differs from the one before, every frame is shown as it was if and only if the compressed animation is shorter than 65536 bytes |
| FrameOffsets.CrossingShownWrong | 4-soc/csrc/nyancat.c:116-119 | The frame whose code crosses the limit is shown wrong if it differs from the one before |
| FrameOffsets.FlickeringTooLong | scripts/gen-nyancat-data.py:178-265 | Twelve frames of 4096 pixels, every pixel changing each time and neighbours differing, compress to 98316 bytes |
| FrameOffsets.FlickeringShownWrong | 4-soc/csrc/nyancat.c:275-278 | So one of these twelve frames is shown wrong |
| FrameCodec.UnchangedSpec | scripts/gen-nyancat-data.py:200-202 | The skip the delta encoder takes is the longest unchanged stretch |
| FrameCodec.ChangedSpec | scripts/gen-nyancat-data.py:240-244 | The run the delta encoder takes is the longest stretch of changed pixels of one colour |
| FrameCodec.SameColorSpec | scripts/gen-nyancat-data.py:147-150 | The run the frame encoder takes is the longest of one colour |
| FrameCodec.MapColor | scripts/gen-nyancat-data.py:85-121 | Every character maps to a palette index of at most 12 |
| FrameCodec.ColorsInOrder | scripts/gen-nyancat-data.py:85-121 | The thirteen colours in the order of their numbers, the two reds alike, and any other character background |
| FrameTools.CompressFrame | scripts/gen-nyancat-data.py:124-175 | The encoder's loops end and produce exactly the code the round trip is about; a frame of the wrong size is refused |
| FrameTools.CompressDelta | scripts/gen-nyancat-data.py:178-265 | The delta encoder's loops end and produce exactly the code the round trip is about; frames of the wrong size are refused |
| FrameTools.EmitRepeats | scripts/gen-nyancat-data.py:152-170 | The chunk loop for a run of any length ends with the opcodes of the specification |
| FrameTools.EmitSkips | scripts/gen-nyancat-data.py:205-227 | The chunk loop for a skip of any length ends with the opcodes of the specification |
| FrameTools.DecompressBaseline | scripts/gen-nyancat-data.py:428-449 | On every opcode stream, well formed or not, the decoder returns what the opcodes mean |
| FrameTools.DecompressDelta | scripts/gen-nyancat-data.py:452-486 | On every opcode stream, well formed or not, the delta decoder returns what the opcodes mean |
| FrameTools.FramePlayer.DecodeBaselineFrame | 4-soc/csrc/nyancat.c:125-150 | On every opcode stream the C decoder leaves in its buffer what the Python decoder returns, truncated or filled with background |
| FrameTools.FramePlayer.DecodeDeltaFrame | 4-soc/csrc/nyancat.c:153-190 | On every opcode stream the C delta decoder computes in place what the Python one returns |
| FrameTools.FramePlayer.LoadFrame | 4-soc/csrc/nyancat.c:100-201 | Both buffers hold the decoded frame afterwards, a delta being applied to the frame loaded before |
| FrameTools.LoadAnimation | 4-soc/csrc/nyancat.c:275-278 | The player's loop shows every frame of an animation compressed below 65536 bytes exactly as it was |
| VideoUpload.PackRoundTrip | 4-soc/csrc/mmio.h:82-91 | Each nibble of a packed word is its pixel's low four bits, and eight pixels fill a word |
| VideoUpload.SelectsExistingFrame | 4-soc/src/main/scala/peripheral/VGA.scala:236-244 | Whatever is written, the display never selects a frame of 12 or more |
| VideoUpload.PaletteWrite | 4-soc/src/main/scala/peripheral/VGA.scala:262-264 | A palette write sets exactly its entry, to six bits |
| VideoUpload.ControlWrite | 4-soc/src/main/scala/peripheral/VGA.scala:236-244 | A control write selecting a frame below 12 is taken as it is; any other keeps bits 31 to 4 and sets the lowest four to the enable bit |
| VideoUpload.StreamWrite | 4-soc/src/main/scala/peripheral/VGA.scala:249-261 | A streamed word lands at its pixel of its frame, frames above 11 meaning 11, and changes nothing else in the memory |
| VideoUpload.OtherWrites | 4-soc/src/main/scala/peripheral/VGA.scala:235-265 | The upload address is taken as it is, and any other address has no effect |
| VideoUpload.StreamStep | 4-soc/src/main/scala/peripheral/VGA.scala:249-261 | Each streamed word lands in the next place of the frame, and after the last the address wraps to the frame's start |
| VideoUpload.FilledPixels | 4-soc/src/main/scala/peripheral/VGA.scala:249-261 | After an upload every pixel of that frame is the image's and every other frame is as it was |
| VideoUpload.VideoPort.BusWrite | 4-soc/src/main/scala/peripheral/VGA.scala:235-265 | The peripheral's registers and memory after one write, at any address |
| VideoUpload.Upload | 4-soc/csrc/nyancat.c:195-199 | Writing the address and 512 packed words fills exactly that frame and leaves address, control and palette as stated |
| VideoScan.MultiplyShiftDivides | 4-soc/src/main/scala/peripheral/VGA.scala:316-322 | Multiplying by 10923 and dropping 16 bits divides by six over the whole range of a 10-bit coordinate |
| VideoScan.RasterPosition | 4-soc/src/main/scala/peripheral/VGA.scala:274-294 | Over every run the counters are where the clock count says, never reach 832 or 520, and the timing-error flag never toggles |
| VideoScan.PositionClosed | 4-soc/src/main/scala/peripheral/VGA.scala:274-294 | After t clocks the raster is at column t mod 832 of line (t / 832) mod 520 |
| VideoScan.PipelineAligned | 4-soc/src/main/scala/peripheral/VGA.scala:306-396 | After three clocks of a steady screen colour, position, active flag and syncs all belong to the raster position of two clocks ago |
| VideoScan.ShowsThePicture | 4-soc/src/main/scala/peripheral/VGA.scala:273-418 | After the first frame image pixel (row, col) of the selected frame covers with its palette entry the screen positions from 48 + 6 row and 128 + 6 col on, six by six; around the picture is colour 1, outside the screen or blanked colour 0, whatever was presented before the last three clocks |
| VideoScan.PixelUnder | 4-soc/src/main/scala/peripheral/VGA.scala:306-322 | Every position in columns 128 to 511 and lines 48 to 431 belongs to an image pixel |
| VideoScan.FirstFrameDark | 4-soc/src/main/scala/peripheral/VGA.scala:288-294 | During the first frame the pins are dark, whatever is presented |
| VideoScan.Raster.Tick | 4-soc/src/main/scala/peripheral/VGA.scala:274-294 | The counters and flags in place keep the closed form of their position, and the flag never toggles |
| VideoScan.Display.Clock | 4-soc/src/main/scala/peripheral/VGA.scala:273-418 | Raster and both stages of delay registers, updated in place, step as the display the theorems are about |
| VideoScan.Display.Present | 4-soc/src/main/scala/peripheral/VGA.scala:273-418 | Clocked in place from power-up through any first frame, three clocks of a steady screen put its pixel on the pins |
| Animation.UploadAnimation | 4-soc/csrc/nyancat.c:275-278 | Decoding and uploading all twelve frames leaves every pixel of every frame in the display memory |
| Animation.AnimationOnScreen | 4-soc/src/main/scala/peripheral/VGA.scala:273-418 | From compressed animation to screen: after the first frame each pixel of the original frame covers its six by six screen positions with its palette entry, and the rest of the visible screen is background |
| Animation.SelectedFrameShown | 4-soc/src/main/scala/peripheral/VGA.scala:114-120 | Whatever was written to the registers before, the frame shown is the one in bits 7 to 4 of the control register, in the colours of the palette registers |
| TetrisGrid.ClearedSettles | 4-soc/csrc/tetris/tetris_grid.c:127-139 | After clearing the grid has its height, no full row, and only rows it had or empty ones |
| TetrisGrid.ClearedFilled | 4-soc/csrc/tetris/tetris_grid.c:127-139 | Clearing removes ten cells for every full row and no others |
| TetrisGrid.TopIsHighest | 4-soc/csrc/tetris/tetris_grid.c:113-125 | The recorded height of a column is its highest filled row, or -1 |
| TetrisField.RemovalClears | 4-soc/csrc/tetris/tetris_grid.c:98-111 | Removing one full row takes one full row away and leaves what clearing all of them gives unchanged |
| TetrisField.Field.RemoveRow | 4-soc/csrc/tetris/tetris_grid.c:98-111 | The rows above move down with their colours and an empty row comes in on top |
| TetrisField.Field.RecalcRelief | 4-soc/csrc/tetris/tetris_grid.c:113-125 | Every column's height is recomputed |
| TetrisField.Field.TakeOutRows | 4-soc/csrc/tetris/tetris_grid.c:127-139 | The loop ends with the non-full rows in their order and their number counted, by full rows left and rows to look at |
| TetrisField.Field.ClearAll | 4-soc/csrc/tetris/tetris_grid.c:127-160 | Rows, heights, line count, score and level after clearing; the result is the number of rows, capped at four |
| TetrisField.Field.BlockCollides | 4-soc/csrc/tetris/tetris_grid.c:164-201 | A piece collides exactly when one of its cells is beyond a side or the floor or on a filled cell |
| TetrisField.Field.BlockAdd | 4-soc/csrc/tetris/tetris_grid.c:248-275 | The piece's cells inside the grid are filled with its colour and heights raised |
| TetrisField.Block.Shift | 4-soc/csrc/tetris/tetris_grid.c:293-320 | A piece moves exactly when the place is free |
| TetrisField.Block.Turn | 4-soc/csrc/tetris/tetris_grid.c:322-346 | A rotation is kicked one column left, then right, or undone |
| TetrisField.Block.Fall | 4-soc/csrc/tetris/tetris_grid.c:277-291 | A dropped piece ends where the specification says, the distance counted |
| TetrisGame.SlideStops | 4-soc/csrc/tetris/tetris_grid.c:293-320 | Asked to slide any number of places a piece goes through free places only and stops short exactly in front of one that is not |
| TetrisGame.SlideReturns | 4-soc/csrc/tetris/tetris_grid.c:293-320 | Sliding any number of places left and as many right returns a free piece if and only if all those places were free, or the place right of it is not |
| TetrisGame.RotatesExactly | 4-soc/csrc/tetris/tetris_grid.c:322-346 | A rotation fails only if the next rotation collides in place, one column left and one column right; otherwise it takes the first of these that is free, in that order |
| TetrisGame.FullTurn | 4-soc/csrc/tetris/tetris_grid.c:322-346 | With room for every rotation, turning a piece all the way round gives it back |
| TetrisGame.DropRests | 4-soc/csrc/tetris/tetris_grid.c:277-291 | A dropped piece passed only through free places, is free where it rests, and would collide one lower |
| TetrisGame.LockedCells | 4-soc/csrc/tetris/tetris_grid.c:248-275 | Locking changes exactly the piece's cells inside the grid |
| TetrisGame.LockSettles | 4-soc/csrc/tetris/tetris.c:422-423 | Locking a free piece and clearing keeps heights and colours right, leaves no full row, and balances the cells |
| TetrisGame.SpawnsFree | 4-soc/csrc/tetris/tetris_grid.c:348-358 | Every shape spawns without collision on an empty grid |
| TetrisGame.PassSound | 4-soc/csrc/tetris/tetris.c:401-502 | One pass of the game loop, whatever the input, keeps the whole invariant |
| TetrisGame.EveryGame | 4-soc/csrc/tetris/tetris.c:401-502 | Over every sequence of inputs: a piece in play overlaps nothing and stays inside, heights are the highest filled rows, cells are coloured exactly when filled, no row is full, and filled cells are those locked minus ten per cleared row |
| TetrisRules.PassRules | 4-soc/csrc/tetris/tetris.c:401-502 | One pass by coordinates: left and right move one column if that place is free, rotation takes the first free of three places, soft drop goes one row down or locks for one point, hard drop to where it cannot go on for two points a row, pause resets the drop timer, and once two ticks have passed the piece comes down one row or locks |
| TetrisRules.EveryPassRuled | 4-soc/csrc/tetris/tetris.c:401-502 | Over every sequence of inputs every pass does what those rules say |
| TetrisRules.LockLocks | 4-soc/csrc/tetris/tetris.c:422-433 | Locking stamps the piece's cells, lets rows fall by the whole rows below them, counts lines, score and level, brings in the announced piece, and ends the game exactly if that has no room |
| TetrisRules.ClearedFalls | 4-soc/csrc/tetris/tetris_grid.c:127-139 | Every row that is not whole falls by the number of whole rows below it, and the top rows are empty |
| TetrisRules.SpawnEnters | 4-soc/csrc/tetris/tetris_grid.c:348-358 | A new piece is unrotated, in its colour, in the middle, its highest cells in the top row |
| TetrisRules.StartRules | 4-soc/csrc/tetris/tetris.c:385-399 | A new game has an empty field, no lines, no points, level one and the two shapes drawn |
| TetrisRules.QuarterTurns | 4-soc/csrc/tetris/tetris_shape.c:4-53 | Each rotation is the one before turned by a quarter: shape 1 clockwise, all others anticlockwise |
| TetrisPlay.Bag.Draw | 4-soc/csrc/tetris/tetris_shape.c:102-137 | Every shape dealt is below seven, and what was dealt is whole permutations of the seven shapes and a part of the present one |
| TetrisPlay.EveryShapeAlike | 4-soc/csrc/tetris/tetris_shape.c:205-212 | After any number of whole bags every shape has come up equally often |
| TetrisPlay.GameLoop.OnePass | 4-soc/csrc/tetris/tetris.c:401-502 | The loop's body in place does what the rules say of one pass |
| TetrisPlay.GameLoop.Loop | 4-soc/csrc/tetris/tetris.c:401-502 | The loop in place, on any inputs, goes through states of which each follows from the one before by the rules |
| DirtyTiles.TilePool.AddTile | 4-soc/csrc/tui copy.c:1334-1347 | A tile not yet listed goes to the front of the list when a node is free; the bitmap, the links and the free list stay consistent |
| DirtyTiles.TilePool.AddBlock | 4-soc/csrc/tui copy.c:1349-1362 | A block not yet listed goes to the front of its list when a node is free, from the same pool |
| DirtyTiles.TilePool.Reset | 4-soc/csrc/tui copy.c:1280-1302 | Every node returns to the free list and the bitmaps are cleared |
| DirtyTiles.TilePool.constructor | 4-soc/csrc/tui copy.c:1199-1212 | The initial free list runs through the whole pool |
| DirtyTiles.TilePool.WalkTiles | 4-soc/csrc/tui copy.c:3277-3299 | Following the links visits exactly the listed tiles, each once |
| DirtyTiles.GridPigeonhole | 4-soc/csrc/tui copy.c:1215-1227 | Distinct places of a grid that miss one of them are fewer than the grid has, so a pool that large never runs out |
| ScreenBuffers.Screen.Tighten | 4-soc/csrc/tui copy.c:1651-1710 | The dirty region shrinks to the tight bounding box of its changed cells, losing none, or is found clean exactly when nothing in it changed |
| ScreenBuffers.Screen.RowChanged | 4-soc/csrc/tui copy.c:449-466 | A row stretch is reported changed exactly when one of its cells differs |
| ScreenBuffers.Screen.ScanTile | 4-soc/csrc/tui copy.c:1550-1633 | Scanning a tile brings exactly its cells inside the scan area up to date |
| ScreenBuffers.Screen.ScanLine | 4-soc/csrc/tui copy.c:3446-3513 | A linear scan of a row brings the whole stretch up to date and writes nothing but current contents, gap bridging and trimming included |
| ScreenBuffers.Screen.RunEnd | 4-soc/csrc/tui copy.c:3458-3491 | A run keeps one attribute, bridges gaps of at most three, ends with a changed cell, and goes on as far as these allow |
| ScreenRefresh.Terminal.MarkDirty | 4-soc/csrc/tui copy.c:1364-1402 | Marking a cell loses no earlier mark, changes the lists as the pool allows, and covers the cell if the lists are not used or the pool has a node for every tile and block |
| ScreenRefresh.Terminal.MarkDirtyRegion | 4-soc/csrc/tui copy.c:1404-1455 | Marking a rectangle loses no earlier mark, and covers every cell of it if the lists are not used or the pool has a node for every tile and block |
| ScreenRefresh.Terminal.Put | 4-soc/csrc/tui copy.c:2914-2945 | Writing a cell changes that cell alone, forgets what it showed, and keeps every difference covered |
| ScreenRefresh.Terminal.Print | 4-soc/csrc/tui copy.c:3690-3767 | Printing changes exactly the stretch of the row and keeps every difference covered |
| ScreenRefresh.Terminal.Clear | 4-soc/csrc/tui copy.c:2859-2888 | Clearing blanks every cell and covers every difference, whatever was marked before |
| ScreenRefresh.Terminal.SparseScan | 4-soc/csrc/tui copy.c:3272-3299 | The sparse scan brings up to date exactly the cells of the scan area in listed tiles |
| ScreenRefresh.Terminal.BlockScan | 4-soc/csrc/tui copy.c:3303-3364 | The two-level list scan brings up to date exactly the cells of the scan area in listed tiles of listed blocks |
| ScreenRefresh.Terminal.ArrayScan | 4-soc/csrc/tui copy.c:3365-3434 | The two-level array scan brings up to date exactly the cells of the scan area in flagged tiles of flagged blocks |
| ScreenRefresh.Terminal.LinearScan | 4-soc/csrc/tui copy.c:3435-3515 | The linear scan brings the whole scan area up to date and writes nothing but current contents |
| ScreenRefresh.Terminal.Refresh | 4-soc/csrc/tui copy.c:3188-3537 | Whichever scan is chosen, every covered cell is up to date, no cell gets other than current contents, cells of unlisted tiles stay as they were, and the dirty region is clean |
| ScreenRefresh.Terminal.RefreshTracked | 4-soc/csrc/tui copy.c:3188-3537 | If every cell that differs was marked and listed, no cell differs after refreshing |
| ScreenSessions.Session | 4-soc/csrc/tui copy.c:3188-3537 | Over every session of writes, prints, clears and refreshes, on a tracked terminal or one cleared first, the screen holds what was drawn; a refresh leaves nothing different if the lists are not used or tiles and blocks together are at most 512, and otherwise does not show a cell written since the refresh before whose tile found no node |
| ScreenSessions.StaleSession | 4-soc/csrc/tui copy.c:1215-1455 | On every other screen there is such a session, clear, refresh, writes and refresh, from any state of the terminal, that ends with a written cell not shown |
| ScreenSessions.StaleStepsLeaveOut | 4-soc/csrc/tui copy.c:1334-1402 | On every screen beyond the pool that session leaves a cell it wrote without a node for its tile |
| DirtyLists.AllListedExactlyWhen | 4-soc/csrc/tui copy.c:1334-1402 | Every series of marks finds its tiles and blocks listed if and only if the pool has a node for each tile and block of the screen |
| DirtyLists.SufficesInNumbers | 4-soc/csrc/tui copy.c:1215-1227 | The pool suffices exactly when tiles of 8 by 8 and blocks of 32 by 32 cells together are at most 512 |
| DirtyLists.SomeTileLeftOut | 4-soc/csrc/tui copy.c:1215-1227 | On a screen beyond the pool, marking one cell per block and then one per tile leaves a tile unlisted |
| DirtyLists.MarkAllInPool | 4-soc/csrc/tui copy.c:1334-1402 | Any series of marks in the linked nodes of the pool gives exactly the lists of that account |
| DirtyLists.VisitMarked | 4-soc/csrc/tui copy.c:3277-3310 | Following the links of both lists afterwards visits exactly those tiles and blocks, in that order |
| VectoredOutput.DroppedBytes | 4-soc/csrc/tui copy.c:818-846 | Advancing the vectors drops exactly the bytes written from the front |
| VectoredOutput.Output.Advance | 4-soc/csrc/tui copy.c:818-846 | The loop and the shift leave the vectors the specification says, in bounds |
| VectoredOutput.Output.WriteAll | 4-soc/csrc/tui copy.c:877-899 | Through short writes and interruptions everything is emitted once, in order; after a hard error a prefix was |
| VectoredOutput.Output.Write | 4-soc/csrc/tui copy.c:935-960 | One write adds exactly its bytes to what was emitted and what is buffered together; nothing is emitted below 64 vectors and 4096 bytes, and with automatic flushing no more than that stays buffered |
| VectoredOutput.WriteSeries | 4-soc/csrc/tui copy.c:935-960 | Over any series of writes of at most 8192 bytes and any short writes and interruptions, emitted followed by buffered bytes are all bytes written, in order |
| Conformance.OperationsConform | 4-soc/src/main/scala/riscv/core/ALU.scala:47-119 | Every register-register instruction, decoded by its fields and computed by the ALU, does what the RISC-V manual says of it (sections 2.4 and 7), for all operands: shifts and bitwise operations bit by bit, comparisons by the highest differing bit and the signs, high products and division by the equations that determine them |
| Conformance.ImmediatesConform | 4-soc/src/main/scala/riscv/core/ALUControl.scala:27-43 | Every immediate instruction, whatever the immediate's upper bits, does to its immediate what the manual says the register form does to its second register |
| Conformance.MeaningUnique | 4-soc/src/main/scala/riscv/core/ALU.scala:47-119 | What the manual says of an operation determines its result |
| WordBits.BelowByBits | 4-soc/src/main/scala/riscv/core/ALU.scala:61-69 | A number is below another exactly when at the highest place where their bits differ it has the zero |
| Conformance.DivisionMeaning | 4-soc/src/main/scala/riscv/core/ALU.scala:95-113 | Division by magnitude computes the quotient rounded toward zero and its remainder, modulo 2^32 |
| Arithmetic.EachBit | 4-soc/src/main/scala/riscv/core/ALU.scala:61-69 | Each bit of a bitwise result depends on the operands' bits in its own place |
| Arithmetic.DivisionTruncates | 4-soc/src/main/scala/riscv/core/ALU.scala:95-113 | Signed division by magnitude truncates toward zero: dividend = divisor * quotient + remainder, the remainder smaller than the divisor in magnitude, with the dividend's sign |
| Arithmetic.DivisionOverflows | 4-soc/src/main/scala/riscv/core/ALU.scala:95-113 | The most negative number divided by -1 gives itself and remainder 0 |
| Arithmetic.TruncationUnique | 4-soc/src/main/scala/riscv/core/ALU.scala:95-113 | No other quotient and remainder satisfy those conditions |
| Arithmetic.DividendReassembles | 4-soc/src/main/scala/riscv/core/ALU.scala:95-118 | For all operand pairs, by zero and overflow included, quotient and remainder reassemble the dividend modulo 2^32, signed and unsigned, with the specified results for a zero divisor |
| Arithmetic.WholeProducts | 4-soc/src/main/scala/riscv/core/ALU.scala:79-94 | Each multiply-high result joined to MUL's is the whole 64-bit product of the operands as that instruction reads them |

## Left out

- Branches, jumps, CSR instructions and traps in the pipeline, and with them the predictors' influence on fetch: the in-order statement is about the computational, load and store class.
- Programs are functions of the address; self-modifying code is not part of this model. The program counter wraps at 2^32 as the hardware's does.
- FENCE and SYSTEM words, and words of no format, are outside the class; a program must consist of supported words at every address.
- Word-crossing loads and stores, which the source calls best-effort: the byte theorems, and the steps of the history in `Architecture.ChipImplementsArchitecture`, speak of accesses within a word.
- One dummy slave shared by several unmapped regions: the switch is proved with one distinct slave per port.
- Response codes and protection bits of the bus, which no state machine reads.
- Reset in the middle of a run.
- Metastability: synchronisers are pure delays, and the display theorem holds its inputs steady for three pixel clocks.
- The receiver facing a consumer that is not ready, and transmit writes dropped while the buffer is full: the link theorem has an always-ready consumer and counts only accepted bytes.
- The display's vblank interrupt and its status and identification reads.
- The register-value hash of the indirect predictor: keys are pairs of an address and any hash.
- RAS restore is in `ReturnAddressStack.Clock` but not in the runs against the ideal stack, which a restore by design departs from.
- Text files, header generation and downloads of the frame generator, and the pre-packed frame variant of the player.
- The inner loop over bits of a bitmap word and the 64-bit words themselves: the bitmaps are arrays of bits at the source's bit index.
- ScreenRefresh.Terminal.Refresh: the lists are sequences there; that the linked nodes of the pool follow the same account of marking is proved in `DirtyLists.MarkAllInPool`. Cursor movement, attributes and escape sequences of a run are not modelled, nor the statistics by which the sparse scan comes to be preferred (every choice is covered), the other windows, and resizing.
- Prints that begin outside the screen, and multi-byte or wide characters: a print is a stretch of cells within one row.
- VectoredOutput.Output.WriteAll: after the listed outcomes the system call succeeds in full, because with interruptions without end the source's loop does not terminate.
- The non-vectored fallback buffer and writes of more than 8192 bytes.
- The Tetris variant loop in `game_update` and `game_loop`, drawing, serial polling and the random generator's bits: shapes drawn are any shapes the bag can deal.
- T-Rex, shell, test programs, simulation harness and build files.
