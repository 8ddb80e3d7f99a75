# Verified model of the MIPS simulator

A Dafny model of the processor core of the simulator and of the tools around it, with
proofs of what they promise. To verify it, run `dafny verify dfyconfig.toml` (Dafny 4.11) here.

## What is modelled

**The two CPUs.** `isa.dfy` is the single-cycle CPU and serves as the definition of the
instruction set; `pipeline.dfy` is the five-stage pipelined CPU with its four inter-stage
registers, load-use stall, two forwarding paths, one- and two-stage flushes, early traps
carried from IF and ID to EX, and CP0 effects. Both are classes with mutable registers,
memory and CP0, proved equal to step functions on values; the theorems are about those
functions. Underneath are 32-bit words (`words.dfy`), little-endian memory (`memory.dfy`),
the decoder and its inverse (`decoder.dfy`), the ALU, the register file, CP0, main control,
and the hazard and forwarding units.

**Why the pipeline is right.** `refinement.dfy` drains MEM/WB and then EX/MEM to read an
architectural state off any pipeline state, and shows that one cycle is one single-cycle
step of it or none. `invariance.dfy` shows that every cycle keeps what this needs. `runs.dfy`
lifts it to whole runs and to the sequence of exceptions. `halting.dfy`, `progress.dfy` and
`finishing.dfy` deal with the spin-in-place halt, bounded progress, cycle accounting, and
running both CPUs to their end. `dependence.dfy` shows the dependence sets sound, and
`vector.dfy` what happens when no memory backs the exception vector.
`differences.dfy` says exactly when the two CPUs report Halt differently and when a trap
loses BadVAddr.

**What each instruction does, and when.** `manual.dfy` states the instruction set as a
manual would, from the bytes of the instruction word, by opcode and function number, with
sums, comparisons, shifts and addresses written out; it uses neither the decoder nor the
control tables nor the ALU of the model. `manual_proof.dfy` shows that every step of the
single-cycle CPU is as the manual says, and `manual_runs.dfy` that every run of the pipeline
is. `timing.dfy` gives the exact schedule: the cycle in which each instruction of a program
executes, traps included, which words make the pipeline stall, and the cycle that reports Halt,
all computed from the program alone.

**Self-modifying code.** A store becomes visible to fetch only after the two words behind it
are in flight, so the two CPUs differ on programs that store just ahead of themselves.
`invariance.dfy` gives the exact condition, both for the pipeline (the store in EX changes a
word left in ID/EX or IF/ID that is going to be executed) and for the program (an instruction
stores a new value into the next word, or into the one after it if the instruction between
falls through; stores that trap or change nothing do not matter), and `runs.dfy` shows over
whole runs that the words in flight stay right if and only if no instruction executed does so.
All theorems about runs assume that condition and no more. `self_modifying.dfy` is a program
that breaks it and on which the CPUs differ.

**The tools.** The pipeline-trace table (`trace*.dfy`) is shown to display dynamic
instructions for the pipelined CPU; the memory view (`memory_view.dfy`) to record exactly the
maximal runs of changed bytes; the GDB packet receiver (`gdb_packets.dfy`, `gdb_receiver.dfy`)
to deliver what the byte stream says however it is cut into reads; breakpoints
(`gdb_breakpoints.dfy`) to be an exact overlay on which the CPU traps; the ELF loader
(`elf.dfy`, `elf_loading.dfy`) to accept exactly the valid files and place exactly their bytes,
and to read back the files `elf_images.dfy` writes out; and the assembler (`assembler*.dfy`,
`assembled_code.dfy`) to produce words that decode to, and execute as, what the source text
says. `spelling.dfy` states assembly language in numbers, apart from the tables of the
assembler, `spelling_proof.dfy` shows that the assembler codes exactly that, and `text_proof.dfy`
what its reading of registers, numbers, comments and labels amounts to.

## How to read it

Words are integers in `[0, 2^32)`; addition and subtraction wrap explicitly. Masks of
contiguous low bits are `%` and shifts are multiplication or `/` by powers of two; the general
bitwise operations are defined bit by bit. Fields joined with `|` are sums, since they do not
overlap. Each imperative routine is a method with loops, proved equal to a function; the
lemmas are about the function. Sockets are sequences of receive events, files are byte
sequences, and a program counter that leaves memory faults as in the source.

## Where code and comments disagree

The model follows the code.

- `Cp0::raise` stores the bad address for every exception code, 0 for those without one
  (`src/mips/cp0.cpp:38`), although `include/mips/cp0.h:59` says AdEL and AdES only.
  `Differences.TrapClearsBadVAddr` says when this matters, `BadVAddrLostInRun` shows it in a run.
- The single-cycle CPU reports Halt for any instruction that leaves the PC in place
  (`src/mips/single_cycle_cpu.cpp:282`), the pipeline only for J and JAL.
  `Differences.HaltExactly` lists the other instructions, `HaltResultsDiffer` shows a branch
  to itself on which only one CPU halts, and `HaltsAgree` that they agree on a program exactly
  if it comes to a J or JAL to itself or never meets one of the others.
- SYSCALL and BREAK count as reading both registers (`src/mips/pipeline_units.cpp:19-22`), and
  forwarding flags may be set for operands that are not used. So a word behind a load can
  cost a stall it does not need; `Timing.StallExactly` says for which words.
- A load-use stall is reported also in a cycle that flushes (`src/mips/pipelined_cpu.cpp:301-303`);
  the trace and the cycle accounting allow for it.
- `parse_imm` takes the sign off before it converts, so `-2147483648` is refused, `--5` is
  read as 5 and `--2147483648` as -2147483648 (`src/nsc_qt/assembler.cpp:44-61`;
  `AssemblerText.ParseImmRoundTrip` and `DoubleSign`).
- `nop` accepts any operands (`src/nsc_qt/assembler.cpp:267-270`).

## Model

| member | source | states |
|---|---|---|
| Refinement.StepRefines | src/mips/pipelined_cpu.cpp:289-405 | Burch-Dill step: in every state the invariants allow, the drained state after one pipeline cycle is the single-cycle step of the drained state before it if EX holds an instruction and MEM does not trap, and is unchanged otherwise |
| Refinement.CommitRefines | src/mips/pipelined_cpu.cpp:304-343 | a cycle that commits does one single-cycle step, traps exactly when that step traps, and that step is never a Fault |
| Refinement.FreshRefines | src/mips/pipelined_cpu.cpp:304-343 | the same for any committing cycle whose word in EX is fresh, whatever IF/ID holds |
| Refinement.StallStutters | src/mips/pipelined_cpu.cpp:306-311 | a cycle that commits nothing (bubble in EX, or a trap in MEM) leaves the drained state alone |
| Refinement.CommitSettles | src/mips/pipelined_cpu.cpp:313-379 | after a committing cycle the pipeline stands for the outcome of EX carried through MEM and WB, whatever is flushed, stalled or redirected |
| Refinement.OperandsCorrect | src/mips/pipeline_units.cpp:70-97 | unless EX/MEM is about to trap, forwarding delivers for each register the instruction in EX really reads the value it has once MEM/WB and then EX/MEM have drained |
| Refinement.Forwarded | src/mips/pipeline_units.cpp:70-97 | each forwarded operand is the drained register value unless a load in EX/MEM writes that register |
| Refinement.ForwardingShown | src/mips/pipeline_units.cpp:70-97 | what the snapshot reports of forwarding, flag by flag: EX/MEM before MEM/WB, never from a load in EX/MEM, never to $zero, and nothing for a squashed, empty or early-trapping EX |
| Refinement.StagesShown | src/mips/pipelined_cpu.cpp:381-402 | what the snapshot reports of each stage: IF flushed exactly when IF/ID ends up empty, ID exactly when EX or MEM discards it, and the word each stage register held |
| Refinement.MemTrapCycle | src/mips/pipelined_cpu.cpp:304-343 | a trap in MEM empties all younger stages, keeps memory and registers of older instructions, and goes to the vector |
| Refinement.IdleCycle | src/mips/pipelined_cpu.cpp:335-354 | the whole next state when EX is empty |
| Refinement.FlushCycle | src/mips/pipelined_cpu.cpp:339-343 | the whole next state when EX traps or redirects: two stages discarded, next PC from EX |
| Refinement.FallThroughCycle | src/mips/pipelined_cpu.cpp:344-354 | the whole next state when EX falls through: a jump in ID beats a stall, a stall holds PC and IF/ID |
| Refinement.EmptyPipeline | src/mips/pipelined_cpu.cpp:413-427 | the state after reset satisfies the invariants and stands for its own registers, memory, CP0 and PC |
| ExecAgreement.InstructionsAgree | src/mips/pipelined_cpu.cpp:76-211 | for every decodable instruction whose really read operands are right, EX then MEM then WB equals one single-cycle execution: registers, memory, CP0, next PC and trap alike, with no internal error |
| ExecAgreement.RedirectExactly | src/mips/pipelined_cpu.cpp:121-162 | EX redirects exactly for taken branches, JR, JALR and ERET |
| ExecAgreement.JumpsAgree | src/mips/pipelined_cpu.cpp:114-120 | the same for J and JAL |
| ExecAgreement.BranchesAgree | src/mips/pipelined_cpu.cpp:121-130 | the same for BEQ and BNE |
| ExecAgreement.Cop0Agree | src/mips/pipelined_cpu.cpp:146-162 | the same for COP0 words: MFC0, MTC0, ERET and the no-ops |
| ExecAgreement.RegisterJumpsAgree | src/mips/pipelined_cpu.cpp:131-145 | the same for JR, JALR, SYSCALL and BREAK |
| ExecAgreement.AluRTypeAgree | src/mips/pipelined_cpu.cpp:163-203 | the same for R-type arithmetic and shifts, including overflow traps and unread operands |
| ExecAgreement.AluITypeAgree | src/mips/pipelined_cpu.cpp:163-203 | the same for immediate arithmetic, including the ADDI overflow trap |
| ExecAgreement.LuiAgrees | src/mips/pipelined_cpu.cpp:163-203 | the same for LUI, which ignores the register in its rs field |
| ExecAgreement.MemoryOpsAgree | src/mips/pipelined_cpu.cpp:45-73 | the same for loads and stores, including AdEL and AdES |
| Invariance.StepKeeps | src/mips/pipelined_cpu.cpp:289-405 | every cycle of every program keeps the structural invariant: latched flags match their cause, ID/EX holds current register values, program order of the three youngest positions, no load in EX/MEM feeding ID/EX |
| Invariance.HazardClear | src/mips/pipeline_units.cpp:61-68 | the load-use test stalls whenever the load in EX writes a register the instruction in ID really reads (exactly then: `Timing.StallExactly`) |
| Invariance.HeldDecode | src/mips/pipelined_cpu.cpp:214-259 | decoding keeps the fetched word, its PC and its flags, and jumps exactly for J and JAL, to their target |
| Invariance.NoSelfJump | src/mips/pipelined_cpu.cpp:277-284 | the halt flag is only ever set on a word that decodes to J or JAL |
| Invariance.CoherenceKept | src/mips/pipelined_cpu.cpp:304-311 | words in flight that will be executed match memory after a cycle if and only if the store in EX changes none of them |
| Invariance.StaleExactly | src/mips/pipelined_cpu.cpp:262-286 | a store overtakes a fetch if and only if the program, at this instruction, changes one of the next two words it executes (the second only if the instruction between falls through) |
| Invariance.DivertsExactly | src/mips/pipelined_cpu.cpp:313-343 | what IF/ID holds is discarded if and only if the instruction in EX traps or transfers control, as read off the program |
| Invariance.StoreFromEx | src/mips/pipelined_cpu.cpp:76-211 | EX hands a store to MEM exactly when the program is at a store, with its address and value |
| Invariance.BehindStore | src/mips/pipelined_cpu.cpp:334-354 | behind a store in EX exactly the next word is in ID/EX and the one after in IF/ID, unless the first is a jump |
| Invariance.StoreDrains | src/mips/pipelined_cpu.cpp:45-73 | what draining EX/MEM does to memory: one word written if it is a store that does not trap, nothing otherwise |
| Runs.RunRefines | tests/mips/pipeline_precise_exceptions_test.cpp:218-229 | every run from an empty pipeline of every program that executes no store changing one of its next two words: after n cycles the drained state is the single-cycle state after the number of committed instructions |
| Runs.ProgramExactly | tests/mips/pipeline_precise_exceptions_test.cpp:225-229 | that condition on the program is exact: the words in flight that will be executed match memory throughout n cycles if and only if none of the instructions executed breaks it, and then the run is a single-cycle run |
| Runs.StoresClearExactly | tests/mips/pipeline_precise_exceptions_test.cpp:225-229 | no cycle has a store overtaking a fetch if and only if no executed instruction changes one of its next two words |
| Runs.CoherentExactly | src/mips/pipelined_cpu.cpp:304-311 | words in flight that will be executed match memory throughout a run if and only if no cycle of it has a store overtaking a fetch |
| Runs.RunRefinesUnlessStale | tests/mips/pipeline_precise_exceptions_test.cpp:218-229 | the refinement in terms of the pipeline: any run in which no store overtakes a fetch |
| Runs.RunKeeps | src/mips/pipelined_cpu.cpp:289-405 | the structural invariant holds after every run from a state that has it |
| Runs.PreciseExceptions | tests/mips/pipeline_precise_exceptions_test.cpp:218-229 | both CPUs trap in the same sequence of states (registers, memory, Status, Cause, EPC, BadVAddr, PC); at most the last trap is still on its way through MEM |
| Runs.ExceptionCycle | include/mips/pipelined_cpu.h:28-31 | when a cycle reports Exception only MEM/WB can still be valid, and one cycle later registers and memory are the drained ones and the pipeline is empty up to the first fetch |
| Runs.TrapAgrees | src/mips/pipelined_cpu.cpp:313-330 | a committing cycle takes a trap now, or leaves one in MEM, exactly when the single-cycle step traps, and never both |
| Halting.HaltIsFinal | include/mips/pipelined_cpu.h:19-22 | when Halt is reported a self-targeting J or JAL has retired, registers, memory and CP0 are those of the single-cycle run, everything in flight is that jump, and no later cycle traps or changes them |
| Halting.HaltFlagsAlways | src/mips/pipelined_cpu.cpp:277-284 | at every point of a run a halt flag in EX/MEM or MEM/WB belongs to an executed self-jump with nothing but that jump behind it |
| Halting.HaltCycle | src/mips/pipelined_cpu.cpp:323-327 | a halt flag in MEM/WB makes the cycle report Halt, never a trap, without changing the drained state |
| Halting.HaltInIdEx | src/mips/pipelined_cpu.cpp:277-284 | a halt flag in ID/EX is set if and only if the next instruction of the program is a J or JAL to itself |
| Halting.SpinIsFixed | src/mips/single_cycle_cpu.cpp:263-283 | a spinning self-jump is a fixed point of the single-cycle step, which reports Halt |
| Halting.QuietForever | include/mips/pipelined_cpu.h:19-22 | after a halt no number of further cycles changes registers, memory or CP0, or traps |
| Progress.StallOnce | src/mips/pipeline_units.cpp:61-68 | a load-use stall never lasts two cycles, and unless MEM traps it holds PC and IF/ID |
| Progress.ProgressWithin | src/mips/pipelined_cpu.cpp:335-354 | at most three consecutive cycles pass without an instruction committing, two when no trap is pending |
| Progress.CommitWithin | src/mips/pipelined_cpu.cpp:289-405 | the k-th instruction commits within 4k + 3 cycles |
| Progress.HaltReached | include/mips/pipelined_cpu.h:19-22 | a program whose single-cycle run is on a J/JAL self-loop after k steps makes the pipeline report Halt by cycle 4k + 5 |
| Progress.HaltsIffSelfJump | tests/mips/pipeline_precise_exceptions_test.cpp:226-228 | the pipeline reports Halt at some time if and only if the single-cycle run comes to a J or JAL to itself |
| Differences.HaltExactly | src/mips/single_cycle_cpu.cpp:278-283 | the single-cycle CPU reports Halt if and only if it is at a J or JAL to itself or at a taken branch, register jump or ERET to itself |
| Differences.StandstillNeverHalts | src/mips/pipelined_cpu.cpp:277-284 | on a program standing still on anything but J or JAL the pipeline never reports Halt |
| Differences.HaltResultsDiffer | tests/mips/pipeline_precise_exceptions_test.cpp:226-228 | a concrete branch to itself on which the single-cycle CPU halts and the pipeline never does |
| Differences.HaltsAgree | tests/mips/pipeline_precise_exceptions_test.cpp:226-228 | one CPU halts if and only if the other does, if and only if the program comes to a J or JAL to itself or never transfers to itself otherwise |
| Progress.CycleBalances | src/mips/pipelined_cpu.cpp:399-402 | one trap-free cycle: entries in the back stages, retirement, stall, flush and jump slots balance |
| Progress.CyclesAccounted | src/mips/pipelined_cpu.cpp:399-402 | cycles of a trap-free run = retired + in flight + stalls + 2 x EX flushes + jumps resolved in ID + 1 - (1 if IF/ID is a bubble) |
| Timing.StallExactly | src/mips/pipeline_units.cpp:5-68 | the pipeline stalls if and only if a load in ID/EX writes a register other than $zero that the word in IF/ID takes as an operand, by format and field: never for J, JAL, LUI, MFC0 or a word that does not decode, shifts by a constant and MTC0 only by rt, register jumps only by rs |
| Timing.StallOnProgram | src/mips/pipeline_units.cpp:61-68 | read off the program: a cycle that executes an instruction without trapping stalls if and only if that is a load and the next word takes the loaded register |
| Timing.StallsCounted | src/mips/pipelined_cpu.cpp:399-400 | in every run without traps the stalls reported are exactly the loads executed whose register the next word takes, and the flushes exactly the taken branches, register jumps and ERETs; so none of the one means none of the other |
| Timing.GapExactly | src/mips/pipelined_cpu.cpp:334-354 | the distance in cycles from each instruction to the next, traps included, from the program alone: 4 after a trapping load or store, 3 after any other trap or a taken branch, register jump or ERET, 2 after J, JAL or a load whose register the next word takes, else 1 |
| Timing.Scheduled | src/mips/pipelined_cpu.cpp:289-405 | the schedule of every run from an empty pipeline: instruction k executes in cycle 2 plus the distances before it, on the state the first k instructions of the single-cycle CPU leave |
| Timing.HaltsInCycle | src/mips/pipelined_cpu.cpp:323-327 | Halt is reported for the first time exactly two cycles after the first J or JAL to itself is scheduled |
| Timing.ReadsExactly | src/mips/pipeline_units.cpp:5-50 | source_registers is the set of operand fields by format |
| Timing.DestinationExactly | src/mips/pipeline_units.cpp:52-59 | destination_register by opcode and function number, none for what writes nothing |
| Timing.ControlExactly | src/mips/single_cycle_cpu.cpp:18-101 | each of the nine control signals by opcode and function number |
| ManualRuns.PipelineFollowsManual | tests/mips/pipeline_precise_exceptions_test.cpp:218-229 | n cycles of the pipeline take the architectural state to the drained one by as many steps of the manual as instructions have executed |
| Finishing.FinishTogether | tests/mips/pipeline_precise_exceptions_test.cpp:218-229 | when the single-cycle run loop ends within k + 1 steps on a J/JAL self-loop, the pipeline run loop ends with Halt within 4k + 6 cycles and the same registers, memory and CP0 |
| Finishing.IsaStopsAt | include/isa/processor.h:92-101 | where the single-cycle run loop stops: after the first step that is not Ok, with its result |
| Finishing.PipelineStopsAt | include/isa/processor.h:92-101 | the same for the pipeline run loop |
| SelfModifying.StoreAheadDiverges | tests/mips/pipeline_precise_exceptions_test.cpp:225-226 | a concrete program that stores into its next word makes the two CPUs differ, so the condition on stores cannot be dropped |
| Dependence.DependenceSetsSound | src/mips/pipeline_units.cpp:5-59 | for every decodable instruction, COP0 included, the effect depends on registers only through source_registers and changes no register but destination_register |
| Dependence.NeverFaults | src/mips/single_cycle_cpu.cpp:237-283 | no step of the single-cycle CPU returns Fault |
| Dependence.ReservedOnlyFromDecode | src/mips/pipelined_cpu.cpp:165-167 | EX raises RI only for words ID could not decode: its own cannot-run trap is unreachable |
| Vector.UnmappedVectorAbsorbs | src/mips/pipelined_cpu.cpp:83-87 | with no memory at the vector, from two cycles after its first trap the pipeline only raises AdEL at the vector, and EPC, registers and memory never change |
| Vector.FirstTrapSticks | src/mips/cp0.cpp:28-42 | with no memory at the vector, the first trap of the single-cycle CPU leaves it stuck there |
| Vector.StuckForever | src/mips/single_cycle_cpu.cpp:241 | a stuck single-cycle CPU raises AdEL with BadVAddr at the vector at every step and keeps EPC, registers and memory |
| Isa.SingleCycleCpu.StepOnce | src/mips/single_cycle_cpu.cpp:237-283 | the mutable CPU steps exactly as the specification function, result included |
| Isa.SingleCycleCpu.ExecR | src/mips/single_cycle_cpu.cpp:116-180 | R-type and COP0 execution on the mutable units equals its specification |
| Isa.SingleCycleCpu.ExecI | src/mips/single_cycle_cpu.cpp:182-235 | I-type execution on the mutable units equals its specification |
| Isa.SingleCycleCpu.RunSteps | include/isa/processor.h:95-101 | the run loop stops at the first result that is not Ok, or at the budget |
| Isa.SingleCycleCpu.LoadProgram | src/mips/single_cycle_cpu.cpp:285-289 | a program that fits is stored and PC set; one that does not changes nothing |
| Isa.SingleCycleCpu.Reset | src/mips/single_cycle_cpu.cpp:291-301 | registers, CP0, PC and cycle count cleared, memory only on request |
| Pipeline.PipelinedCpu.StepOnce | src/mips/pipelined_cpu.cpp:289-405 | one clock cycle on the mutable CPU: next state, result and front-end snapshot equal the specification |
| Pipeline.PipelinedCpu.RunAllStages | src/mips/pipelined_cpu.cpp:304-311 | WB and MEM commit their own effects while EX, ID and IF only report, oldest first |
| Pipeline.PipelinedCpu.Resolve | src/mips/pipelined_cpu.cpp:313-330 | the oldest trap or redirect wins; CP0 accesses of EX apply only when nothing trapped |
| Pipeline.PipelinedCpu.Latch | src/mips/pipelined_cpu.cpp:334-402 | next PC and pipeline registers under the flush, jump, stall priorities, and the snapshot |
| Pipeline.PipelinedCpu.WriteBackStage | src/mips/pipelined_cpu.cpp:36-42 | write-back of MEM/WB and the halt flag it reports |
| Pipeline.PipelinedCpu.MemoryStage | src/mips/pipelined_cpu.cpp:45-73 | the access in EX/MEM with its trap, and what goes on to MEM/WB |
| Pipeline.PipelinedCpu.DecodeRegister | src/mips/pipelined_cpu.cpp:214-259 | decoding reads the register file after WB wrote it, and records early traps |
| Pipeline.PipelinedCpu.FetchWord | src/mips/pipelined_cpu.cpp:262-286 | fetch with its fault flag and the halt flag for self-jumps |
| Pipeline.PipelinedCpu.RunCycles | include/isa/processor.h:95-101 | the run loop on the pipelined CPU |
| Pipeline.PipelinedCpu.LoadProgram | src/mips/pipelined_cpu.cpp:407-411 | stores the program and sets PC; the pipeline is not emptied |
| Pipeline.PipelinedCpu.Reset | src/mips/pipelined_cpu.cpp:413-427 | reset empties the pipeline; memory is cleared only on request |
| Alu.OverflowMeaning | src/mips/alu.cpp:109-121 | the bit tests hold if and only if the signed sum or difference leaves the 32-bit range; otherwise the result is that sum or difference |
| Alu.LeftShiftBits | src/mips/alu.cpp:176-196 | SLL moves each bit up by shamt and LUI by 16, filling with zeros |
| Alu.ShiftBits | src/mips/alu.cpp:181-190 | SRL and SRA bit by bit: bit i comes from bit i + shamt, and SRA (floor division of the signed value) fills with the sign |
| Alu.ZeroMeaning | src/mips/alu.cpp:204-210 | the branch comparison is zero exactly for equal operands |
| Alu.FlagsMean | src/mips/alu.cpp:204-209 | zero and sign flags of every operation; overflow for the signed sum and difference only |
| ManualProof.StepMeans | src/mips/single_cycle_cpu.cpp:237-283 | from every state one step of the single-cycle CPU is what the manual says of the bytes at the PC: whole next state and result, for every word, decodable or not |
| ManualProof.WordMeans | src/mips/single_cycle_cpu.cpp:237-283 | the same by opcode number, for a given word |
| ManualProof.SpecialMeans | src/mips/single_cycle_cpu.cpp:116-180 | the same by function number for SPECIAL words, reserved ones included |
| ManualProof.SumsMean | src/mips/alu.cpp:129-143 | ADD and SUB leave the signed sum or difference in rd, or trap with code 12 exactly when it leaves 32 bits |
| ManualProof.WrappingSumsMean | src/mips/alu.cpp:134-147 | ADDU and SUBU leave the sum and difference modulo 2^32 in rd |
| ManualProof.ComparisonsMean | src/mips/alu.cpp:165-174 | SLT compares signed, SLTU unsigned values |
| ManualProof.LogicsMean | src/mips/alu.cpp:148-163 | AND, OR, XOR and NOR by function number, bit by bit |
| ManualProof.ShiftsMean | src/mips/alu.cpp:176-190 | SLL, SRL, SRA, SLLV and SRLV bit by bit, with the shift amount from the word or from the low five bits of rs |
| ManualProof.AddImmediateMeans | src/mips/single_cycle_cpu.cpp:182-235 | ADDI leaves the signed sum with the signed immediate in rt, or traps with code 12 |
| ManualProof.WrappingImmediatesMean | src/mips/single_cycle_cpu.cpp:182-235 | ADDIU, SLTI and SLTIU with the immediate sign-extended |
| ManualProof.LogicImmediatesMean | src/mips/single_cycle_cpu.cpp:182-235 | ANDI, ORI and XORI bit by bit with the immediate zero-extended |
| ManualProof.LuiMeans | src/mips/alu.cpp:192-196 | LUI leaves the immediate times 2^16 in rt |
| ManualProof.LoadMeans | src/mips/single_cycle_cpu.cpp:182-235 | LW, LHU and LBU leave the little-endian word, half or byte at base plus signed offset in rt, or trap with code 4 and that address if it is misaligned or out of memory |
| ManualProof.StoreMeans | src/mips/single_cycle_cpu.cpp:182-235 | SW changes the four bytes at base plus signed offset and nothing else, or traps with code 5 and that address |
| ManualProof.BranchMeans | src/mips/single_cycle_cpu.cpp:182-235 | BEQ and BNE go four times the signed immediate past the next instruction, or to it |
| ManualProof.JumpMeans | src/mips/single_cycle_cpu.cpp:237-283 | J and JAL go to the target within the 256 MB region of the next instruction; JAL leaves its address in $ra |
| ManualProof.JumpRegistersMean | src/mips/single_cycle_cpu.cpp:116-180 | JR and JALR go to the old value of rs; JALR leaves the address of the next instruction in rd |
| ManualProof.TrapInstructionsMean | src/mips/single_cycle_cpu.cpp:116-180 | SYSCALL and BREAK trap with codes 8 and 9 |
| ManualProof.Cop0Means | src/mips/single_cycle_cpu.cpp:116-180 | MFC0 reads and MTC0 writes CP0 registers 8, 12, 13 and 14 by number (8 read-only, others 0 and ignored); ERET goes to EPC and clears bit 1 of Status; other sub-ops do nothing |
| ManualProof.TrapMeans | src/mips/cp0.cpp:28-42 | a trap in numbers: vector, code in bits 6:2 of Cause, bit 1 of Status, EPC and BadVAddr |
| Words.BitwiseBit | src/mips/alu.cpp:148-163 | AND, OR, XOR and NOR act on each bit separately |
| Words.TopBit | src/mips/alu.cpp:109-121 | bit 31 is set exactly for negative signed values |
| Cp0.RaiseBits | src/mips/cp0.cpp:28-42 | a trap bit by bit: Status gains EXL only, Cause changes in bits 6:2 only, EPC is kept if EXL was set, BadVAddr takes the given address for every code |
| Differences.TrapClearsBadVAddr | src/mips/cp0.cpp:38 | a single-cycle trap that is not an address error leaves BadVAddr 0, so it keeps BadVAddr if and only if that was 0 |
| Differences.SyscallLosesBadVAddr | include/mips/cp0.h:54-61 | a SYSCALL wipes out any bad address recorded before it, against the comment |
| Differences.BadVAddrLostInRun | src/mips/cp0.cpp:38 | in a run that starts with a misaligned load and has SYSCALL at the vector, BadVAddr is the address of the load after one step and 0 after two |
| Differences.SuchAProgram | src/mips/cp0.cpp:38 | there is a memory that holds such a program |
| Cp0.EretBits | src/mips/cp0.cpp:44-47 | ERET clears EXL and nothing else |
| Cp0.NestedTrapKeepsEpc | src/mips/cp0.cpp:30-35 | a nested trap keeps the first EPC; after ERET the next trap records its own |
| Cp0.Cp0Unit.RaiseTrap | src/mips/cp0.cpp:28-42 | the mutable unit raises as specified and returns the vector |
| Cp0.Cp0Unit.ReturnFromTrap | src/mips/cp0.cpp:44-47 | the mutable unit performs ERET and returns EPC |
| Cp0.Cp0Unit.Read | src/mips/cp0.cpp:49-62 | register reads; unknown registers read 0 |
| Cp0.Cp0Unit.Write | src/mips/cp0.cpp:64-78 | register writes; BadVAddr and unknown registers ignore them |
| Memory.ReadAfterPut | src/mips/memory.cpp:16-40 | a stored word is read back at its own address and changes no other word |
| Memory.PutCommutes | src/mips/memory.cpp:33-40 | stores to different words commute |
| Memory.PutSame | src/mips/memory.cpp:16-40 | storing what a word holds changes nothing |
| Memory.PartsAfterPut | src/mips/memory.cpp:16-40 | byte order: the halves and bytes of a stored word at its address are its value modulo and divided by powers of 256, lowest first |
| Memory.PartsAfterPutHalf | src/mips/memory.cpp:42-47 | a stored half-word is read back, low byte first, and every other byte is kept |
| Memory.LoadedImage | src/mips/memory.cpp:55-66 | a loaded image holds its words in order (the last 2^30 of them, the most 32-bit addresses can hold) and nothing outside it changes |
| Memory.MemoryUnit.ReadWordAt | src/mips/memory.cpp:16-21 | little-endian word read with alignment and bounds |
| Memory.MemoryUnit.ReadHalfAt | src/mips/memory.cpp:23-26 | little-endian half read with alignment and bounds |
| Memory.MemoryUnit.WriteWordAt | src/mips/memory.cpp:33-40 | word write in place; a refused write changes nothing |
| Memory.MemoryUnit.WriteHalfAt | src/mips/memory.cpp:42-47 | half write in place; a refused write changes nothing |
| Memory.MemoryUnit.WriteByteAt | src/mips/memory.cpp:49-53 | byte write in place; a refused write changes nothing |
| Memory.MemoryUnit.Load | src/mips/memory.cpp:55-66 | the bulk-load loop: all words at addresses computed in 32 bits, or nothing if they do not fit |
| Registers.ReadAfterWrite | src/mips/registers.cpp:8-17 | a written register is read back, and $zero stays 0 |
| Registers.RegisterFile.Write | src/mips/registers.cpp:13-17 | writes in place; $zero ignores them; the index is masked |
| Registers.RegisterFile.Read | src/mips/registers.cpp:8-11 | reads; $zero is 0; the index is masked |
| Control.LoadDataFrom | src/mips/data_memory.cpp:5-18 | the load each opcode performs, zero-extended, or a refusal |
| Control.StoreDataTo | src/mips/data_memory.cpp:20-27 | the store each opcode performs, or a refusal that changes nothing |
| Control.LoadsAfterStore | src/mips/data_memory.cpp:5-27 | after SW of a value: LW gives it back, LHU its low and high half, LBU its bytes, lowest first |
| Decoder.EncodeDecode | src/mips/decoder.cpp:71-120 | re-encoding the fields of any accepted word gives the word back, except bits 10:6 of COP0 |
| Decoder.DecodeEncode | src/mips/decoder.cpp:71-120 | every well-formed instruction is the decoding of its encoding |
| Decoder.FieldSplit | include/mips/decoder.h:124-128 | the field taps cut a word into parts that make it up again |
| Decoder.DecodeWellFormed | src/mips/decoder.cpp:9-120 | what every accepted word looks like: format by opcode, implemented functions only |
| Trace.TraceTable.UpdateCycle | src/nsc_qt/widgets/pipeline_trace_widget.cpp:85-122 | the update loop, oldest stage first: restart rule, placement of every stage, scrolling |
| Trace.TraceTable.FindRow | src/nsc_qt/widgets/pipeline_trace_widget.cpp:102-106 | the row search returns the eligible row seen last, if any |
| Trace.TraceTable.Place | src/nsc_qt/widgets/pipeline_trace_widget.cpp:98-112 | one stage is entered into its row, or a new row is opened |
| Trace.Row.LastStage | src/nsc_qt/widgets/pipeline_trace_widget.cpp:41-45 | the highest stage a row was seen in |
| TraceRows.UpdateOk | src/nsc_qt/widgets/pipeline_trace_widget.cpp:85-122 | for any pipeline whose stages behave in order, one update takes a right table to a right table |
| TraceRows.BestIsTrue | src/nsc_qt/widgets/pipeline_trace_widget.cpp:102-106 | the latest eligible row is the own row of the instruction even when several at one PC are in flight or were squashed |
| TraceRows.StagesInOrder | src/nsc_qt/widgets/pipeline_trace_widget.cpp:94-97 | an instruction passes each stage once, in strictly increasing cycles |
| TraceRows.VisibleRows | src/nsc_qt/widgets/pipeline_trace_widget.cpp:114-116 | scrolling keeps, in order, the rows last seen inside the window, all of them and no others |
| TraceRows.LastSeen | src/nsc_qt/widgets/pipeline_trace_widget.cpp:114-116 | after an update every row was last seen less than 20 cycles ago |
| TraceRows.RestartsExactly | src/nsc_qt/widgets/pipeline_trace_widget.cpp:88-91 | a cycle number that does not go up or jumps by more than 20 leaves only cells of that cycle; any other keeps every row seen in the last 20 cycles |
| TracePipeline.PipelineFlows | src/mips/pipelined_cpu.cpp:381-402 | the snapshots of the pipelined CPU behave in order: every shown instruction was shown one stage earlier one cycle ago, or two when it waited |
| TracePipeline.TraceShowsInstructions | src/nsc_qt/widgets/pipeline_trace_widget.cpp:85-122 | fed every cycle from reset, each row is the history of exactly one fetched instruction, cycles increase along it, rows are distinct and in fetch order, every stage shown in the last 20 cycles is in the table, and no row is older than that |
| TracePipeline.LogShows | src/nsc_qt/widgets/pipeline_trace_widget.cpp:98-101 | the instructions meant are exactly those the snapshots show as valid, not stalled and not flushed |
| MemoryView.View.UpdateDisplay | src/nsc_qt/widgets/memory_widget.cpp:115-165 | after every refresh the snapshot is memory; a same-size refresh records the first 256 maximal runs, a first or resized one records none; what is painted is what is recorded |
| MemoryView.View.Patch | src/nsc_qt/widgets/memory_widget.cpp:137-161 | the page loop leaves the snapshot equal to memory and the first 256 runs recorded |
| MemoryView.View.PatchPage | src/nsc_qt/widgets/memory_widget.cpp:146-160 | the run loop within one page, continuing a run from the page before |
| MemoryView.RunsAreMaximal | src/nsc_qt/widgets/memory_widget.cpp:146-160 | the runs are in order, never touch, and cover exactly the bytes that differ |
| MemoryView.MaximalRunsUnique | src/nsc_qt/widgets/memory_widget.cpp:146-160 | no other list of ranges has these properties |
| MemoryView.CapCommutes | src/nsc_qt/widgets/memory_widget.cpp:156-159 | dropping runs past the cap as they come equals cutting the whole list: no dropped run is continued later |
| MemoryView.CappedRuns | src/nsc_qt/widgets/memory_widget.cpp:156-159 | the cap keeps the first 256 runs |
| GdbReceiver.PacketReceiver.RecvPacket | src/mips/gdb_stub.cpp:244-281 | for every byte stream and every way it is cut into recv chunks: the packet, interrupt or close the stream determines, one minus sign per refused frame, a plus for the packet, stored length at most 0x4000 |
| GdbReceiver.PacketReceiver.ReadByte | src/mips/gdb_stub.cpp:203-213 | bytes come in stream order across refills and signals; false exactly at the end of the stream |
| GdbReceiver.PacketReceiver.ReadBody | src/mips/gdb_stub.cpp:257-267 | the body up to #, stored whole up to the limit, never beyond |
| GdbReceiver.PacketReceiver.PollInput | src/mips/gdb_stub.cpp:215-242 | reports an interrupt exactly when Ctrl-C is among the unread or arriving bytes, before a close; a dropped full buffer never held one |
| GdbReceiver.PacketReceiver.Compact | src/mips/gdb_stub.cpp:216-222 | the in-place copy moves the unread bytes to the front unchanged |
| GdbReceiver.UndoEscapes | src/mips/gdb_stub.cpp:189-201 | the unescape loop equals its recursive meaning |
| GdbReceiver.ComputeChecksum | src/mips/gdb_stub.cpp:136-141 | the checksum loop is the sum modulo 256 |
| GdbPackets.PayloadRecovered | src/mips/gdb_stub.cpp:244-281 | after any noise and bad frames, every escaped payload is returned unchanged and each bad frame is refused once |
| GdbPackets.PacketIsAFrame | src/mips/gdb_stub.cpp:271-278 | a payload is only ever the unescaped body of a frame of the stream with matching checksum and raw length at most 0x4000 |
| GdbPackets.UnescapeEscape | src/mips/gdb_stub.cpp:189-201 | unescaping undoes escaping for every payload |
| GdbPackets.ChecksumAdds | src/mips/gdb_stub.cpp:136-141 | the checksum of a concatenation is the sum of the checksums modulo 256 |
| GdbPackets.ChecksumOne | src/mips/gdb_stub.cpp:136-141 | the checksum of one byte is the byte |
| GdbPackets.FlipBits | src/mips/gdb_stub.cpp:189-201 | escaping flips bit 5 and no other |
| GdbPackets.HexDigits | src/mips/gdb_stub.cpp:352-359 | hexadecimal digits of either case and no other characters |
| GdbPackets.KnownFrames | src/mips/gdb_stub.cpp:162-169 | frames as they appear on the wire: OK, and payloads that need an escape |
| GdbPackets.CtrlC | src/mips/gdb_stub.cpp:244-281 | byte 3 between packets is an interrupt |
| GdbBreakpoints.OverlayIsExact | src/mips/gdb_stub.cpp:473-496 | after any interleaving of inserts and removes memory is the original with BREAK at exactly the armed words; with none left it is the original byte for byte |
| GdbBreakpoints.InsertCovers | src/mips/gdb_stub.cpp:473-485 | an insert succeeds exactly on words of memory, adds only that address, and keeps the overlay |
| GdbBreakpoints.RemoveCovers | src/mips/gdb_stub.cpp:487-496 | a remove succeeds exactly on listed addresses, takes away only that one, and keeps the overlay |
| GdbBreakpoints.StopsAtBreakpoint | src/mips/gdb_stub.cpp:473-485 | the CPU on overlaid memory finds 0x0000000D and traps with the code of BREAK exactly at the armed words, and finds the original word anywhere else |
| GdbBreakpoints.BreakpointTable.InsertBreakpoint | src/mips/gdb_stub.cpp:473-485 | the search loop and in-place insertion equal the specification |
| GdbBreakpoints.BreakpointTable.RemoveBreakpoint | src/mips/gdb_stub.cpp:487-496 | the search loop and in-place removal equal the specification |
| Elf.ParseElf | src/mips/elf_loader.cpp:96-258 | the reader returns the specified image: header errors in order, then segments up to the first bad header |
| Elf.AcceptedExactly | src/mips/elf_loader.cpp:96-258 | a file is accepted if and only if its header and table are valid, every contributing program header fits file and address space, and one contributes |
| Elf.HeaderErrorExact | src/mips/elf_loader.cpp:99-173 | no header error if and only if the header is valid and the table lies in the file |
| Elf.ParsedSound | src/mips/elf_loader.cpp:199-251 | every extracted segment has data of its file size lying in the file, memsz at least filesz, and does not wrap the address space |
| Elf.SegmentsInOrder | src/mips/elf_loader.cpp:177-251 | each contributing header gives exactly one segment, in table order |
| ElfImages.ParsedWritten | src/mips/elf_loader.cpp:96-258 | reading undoes writing: a file laid out as the ABI says, with any sound segments, entry point and values in the fields a loader does not need, is read back as those segments and that entry |
| ElfImages.FileHeaderRead | src/mips/elf_loader.cpp:35-51 | every field of the file header is where the ABI puts it |
| ElfImages.ProgramHeaderRead | src/mips/elf_loader.cpp:53-63 | every field of a program header is where the ABI puts it |
| ElfImages.HeaderVerdict | src/mips/elf_loader.cpp:127-173 | the verdict on a header for every value of its fields: machine 8, type 1 or 2, a table present, entry size 32, table in the file |
| ElfImages.IdentityVerdict | src/mips/elf_loader.cpp:99-125 | the errors of the identification bytes, each exactly when its byte is the first wrong one, and of a file shorter than 52 bytes |
| ElfImages.EntryVerdict | src/mips/elf_loader.cpp:201-233 | the error reported for the first program header that cannot be used, by the check it fails |
| ElfLoading.LoadIntoProcessor | src/mips/elf_loader.cpp:272-308 | for any image: loading succeeds exactly when no write is refused; PC is the entry then and untouched otherwise; on failure memory holds the segments up to the misfit and of it the bytes before the first refused write |
| ElfLoading.LoadSegment | src/mips/elf_loader.cpp:288-304 | the data and zero-fill loops write the footprint of a segment at addresses computed in 32 bits, up to the first refused write |
| ElfLoading.ReachExactly | src/mips/elf_loader.cpp:288-304 | which write of a segment is the first to be refused, wrap-around included |
| ElfLoading.OverlayByte | src/mips/elf_loader.cpp:287-304 | for parsed images the in-order overlay byte by byte: the last segment over a byte decides it, file data then zeros, all other bytes unchanged |
| ElfLoading.LoadFile | src/mips/elf_loader.cpp:311-315 | parse and load together: success if and only if the file is acceptable and all segments fit |
| Assembler.Assemble | src/nsc_qt/assembler.cpp:197-415 | the two passes return the specified words, or the first refusal with its line |
| Assembler.CollectLines | src/nsc_qt/assembler.cpp:206-238 | pass one: comments, labels, lower-case mnemonics and operands |
| Assembler.LineByLine | src/nsc_qt/assembler.cpp:252-412 | an accepted source gives exactly one word per instruction line, in order; a rejected one names its first bad line |
| Assembler.LabelPosition | src/nsc_qt/assembler.cpp:214-223 | a label stands for the number of instructions before its last definition |
| AssembledCode.CodedMeans | src/nsc_qt/assembler.cpp:266-412 | each accepted line becomes a word that decodes to the written opcode and registers, with an immediate the CPU extends to the written integer |
| AssembledCode.MeaningIsCoded | src/nsc_qt/assembler.cpp:266-412 | conversely every line that means an instruction is accepted, as that word: nothing in range is refused |
| SpellingProof.SpellsExactly | src/nsc_qt/assembler.cpp:266-412 | the assembler gives a line exactly the word the manual spells for it: mnemonic by opcode and function number, each operand in its field, signed and unsigned immediates; a line that spells no word gets none |
| SpellingProof.ProgramSpelled | src/nsc_qt/assembler.cpp:197-415 | every word of an assembled program is the one its line spells; a rejected program has a line that spells no word, and its first one is named |
| SpellingProof.RefusedExactly | src/nsc_qt/assembler.cpp:266-412 | a line is refused exactly for the reason there is: unknown mnemonic, operand count, bad register or operands, range, memory operand, label |
| SpellingProof.LineExecutes | src/nsc_qt/assembler.cpp:266-412 | executing an assembled line does what the manual says of the word the line spells |
| SpellingProof.SumExecutes | src/nsc_qt/assembler.cpp:273-279 | an assembled add leaves the signed sum of its second and third operand in its first or traps for overflow, sub the difference |
| AssembledCode.ExtendedTruncated | src/nsc_qt/assembler.cpp:77-93 | truncating to 16 bits and extending as the CPU does is the identity exactly on the range the assembler allows |
| AssembledCode.BranchLands | src/nsc_qt/assembler.cpp:366-389 | executing an assembled branch to a label goes to the labelled instruction if taken and to the next one if not, and changes nothing else |
| AssembledCode.JumpLands | src/nsc_qt/assembler.cpp:391-409 | executing an assembled jump to a label goes to the labelled instruction; jal also links |
| AssembledCode.LabelledTransfer | src/nsc_qt/assembler.cpp:197-415 | from source text to executed step: in a program of fewer than 2^26 words at address 0, jumps to labels and branches whose operands make them taken continue at the instruction after the last definition of the label, other branches at the next instruction |
| AssemblerText.Tokenise | src/nsc_qt/assembler.cpp:166-181 | the tokeniser loop; every token is non-empty and free of separators |
| AssemblerText.TokensOfJoined | src/nsc_qt/assembler.cpp:166-181 | splitting undoes joining with any separator |
| AssemblerText.DoubleSign | src/nsc_qt/assembler.cpp:46-60 | a doubled sign before n cancels if and only if n is below 2^31; before 2^31 it gives -2^31, and larger numbers are refused |
| AssemblerText.ParseImmRoundTrip | src/nsc_qt/assembler.cpp:44-61 | a written integer is read back if it is above -2^31 and below 2^31, and refused otherwise |
| TextProof.HexExactly | src/nsc_qt/assembler.cpp:44-61 | hexadecimal numbers of either case and prefix are read as 32 bits and taken as signed, a sign negates in 32 bits, wider ones are refused |
| TextProof.RegistersExactly | src/nsc_qt/assembler.cpp:17-41 | a register operand is the dollar sign and an ABI name or a number below 32, and nothing else |
| TextProof.MemoryOperand | src/nsc_qt/assembler.cpp:63-75 | offset(register) whatever follows |
| TextProof.TrimExactly | src/nsc_qt/assembler.cpp:152-163 | trimming takes off blanks at both ends, all of them and nothing else |
| TextProof.LinesExactly | src/nsc_qt/assembler.cpp:206-207 | splitting into lines undoes writing them out |
| TextProof.LabelledLine | src/nsc_qt/assembler.cpp:209-226 | what stands before the colon is the label, what stands between it and the comment the instruction, both trimmed |
| TextProof.UnlabelledLine | src/nsc_qt/assembler.cpp:209-226 | a line without a colon defines no label |
| TextProof.InstructionRead | src/nsc_qt/assembler.cpp:228-238 | an instruction is its mnemonic in lower case and its operands, however separated |
| TextProof.LowerExactly | src/nsc_qt/assembler.cpp:234-235 | capitals become small letters and nothing else changes |

## Left out

- Runs.ProgramExactly: exact for the words in flight, not for their effect; two different words that happen to do the same thing, or a stale word put right by the next store before it executes, count as a mismatch.
- Progress.CyclesAccounted: balances trap-free runs only; the cycles of runs with traps are in `Timing.Scheduled`.
- Timing.StallsCounted: covers runs without traps, since behind a load that is going to trap in MEM the stall is decided by a word that is then discarded and need not be the one in memory.
- Manual.TrapsAs: does not mention the last exception code the debugger asks for, which `Cp0.RaiseBits` states.
- Memory.MemoryUnit.Load: asks for an aligned base, as the source does by aborting on any other.
- ElfLoading.LoadIntoProcessor: asks that the data of each segment be as long as its file size, since the source indexes it by that; the processor is the single-cycle one, because the loader touches memory and PC alone.
- Pipeline.PipelinedCpu.LoadProgram: like `set_pc` it leaves instructions in flight, so the theorems about runs start from an empty pipeline, as after `reset`.
- AssembledCode.LabelledTransfer: labels spelled as integers are read as numbers by the source and are not covered.
- Sources of more than 2^31 instruction lines, where the assembler's 32-bit line indices would overflow.
- HI and LO, `last_control`, `last_written`, log text, disassembly and mnemonics: no bearing on execution.
- `set_pc` on a pipeline with instructions in flight, and the debugger driving the pipelined CPU: inserted BREAK words do not reach words already fetched.
- Interrupts, branch delay slots and unimplemented instructions: not in the code.
- GDB commands other than breakpoints, sending failures and the serve loop: thin dispatch over what is modelled.
- Qt, QML and terminal front ends, rendering, and the painting of the memory view beyond which ranges are painted.
- Non-seekable ELF inputs and seek failures: a byte sequence has neither. Error texts are constructors of a datatype.
- The hex program loader, number-base conversion and simulation counters: thin parsing and bookkeeping.
- Text round trip between disassembler and assembler: it does not hold in the source; the round trips here are on words and fields.
- Locale-dependent lower-casing and non-ASCII text in assembler sources.
