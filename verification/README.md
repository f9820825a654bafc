# Verified model of SwitchV32

SwitchV32 is a multi-core RISC-V emulator with a GDB stub. This project models its three hardest
parts in Dafny and proves them correct: the protocol by which core threads, other cores and the debugger
start, stop, halt and step a core; the interpreter for RV32IM with software breakpoints planted in guest memory; and
the codec of the GDB Remote Serial Protocol. `dafny verify dfyconfig.toml` checks everything.

## What is modelled

**The core protocol.** `CoreMachine` is a transition system for one core. Every critical section of the
core mutex is one step, split at each condition-variable wait; `vcore_run` is split into executing an
instruction and reading the exit flag. The flag is written only inside the mutex, so a write belongs to
the step of its section, while its reads are steps of their own. Waits may wake up spuriously. `HaltAck`,
`StepHandshake` and `Acknowledge` are the ranking arguments for halts, steps, HSM requests and continues,
`HsmRefinement` is the refinement over whole runs; `Manager` puts any number of cores together with halt-all calls and one debugger thread. `Projection` and
`SystemRuns` carry the theorems about one core over to the cores of the machine and prove that halt-all halts
and that a step under a halted snapshot returns; `ManagerCalls` that a continue-all continues every core
once, and that a continue or a step reaches its core alone. `ContinueAll` shows that the checks of the
manager do not fail when the debugger steps halted cores and continues them, `WithoutDebugger` what becomes of
the other cores when nobody debugs. `Locks` spells out the core mutexes and proves the lock order
and the absence of deadlock. `Cthread` has the code itself, a class whose methods change the fields in place,
each proved to perform its transition.

The comment on `cthread_signal_continue` says it is processed only in HALTED, the code also accepts
HALT_PENDING. The model follows the code; the run theorems ask that a continue is not issued while a halt
is pending, `CoreMachine.ContinueIsSafeExactly` shows that this is the exact condition on the state, and
`Manager.ManagerIsDisciplined` that all callers meet it.

**The interpreter and breakpoints.** `Isa` is the specification: encodings, and one step of RV32IM after
chapters 2 and 7 of the RISC-V Unprivileged ISA, version 20191213. `Cpu` is the interpreter as functions,
with the masks and shifts of the program; `Vcore` is the code in place. `Simulation` proves the second
against the first, and `Isa` proves that its encodings and its decoding are inverse to each other.
Words are integers below 2^32 with explicit wrap-around, the decoders are bit-vectors. JALR
deviates from the ISA in two ways; its theorem is an if-and-only-if. `Atomics` shows which words the program takes
for atomic instructions: AMOOR, whose code at src/cpu.c:114 is not the one of the ISA, ends the process. `Breakpoints` and `Transparency` show
that breakpoints are invisible to a program that does not use a planted word as data; `StepOverCall` puts the
step over a breakpoint together with the step call of the core protocol.

**The stub.** `Strtol`, `Hex`, `Tokenizer`, `Commands`, `VPacket`, `Registers`, `PktBuffer`, `Parser`,
`Frame`, `Conversation` and `Builder` follow the files of the stub; `Packets` and `Replies` state every command
on the text of its packet, in numbers and registers. Characters are bytes. The C library's `strtol`
in base 16 is written out, with white space, sign, prefix and saturation to 64 bits. The allocator, the
results of write calls, the names of cores and the way a continued program comes to a stop are parameters.
Packets that make the program abort (an extraction beyond the end of the payload) have a result of their own.

Where the code does not meet what it seems meant for, the model keeps the code and a lemma gives the exact
condition, with a concrete failing case beside it: HSM requests that overtake a continue, halts in the window
of a step call, the JALR deviations, AMOOR and words that are no instruction, a reset of a grown buffer, empty fields
in the tokenizer, thread id 0, packets that do not end with a read, and debugger commands that come before a
halt is acknowledged.

## Model

| member | source | states |
|---|---|---|
| `CoreMachine.InvStep` | src/cthread.c:28-263 | every critical section of every party (HSM request, halt, continue, step call, core thread) keeps one inductive invariant: state/signal pairing, exit-flag agreement, and what each location of the core thread and of the stepping debugger allows |
| `CoreMachine.RunInv` | src/cthread.c:265-272 | the invariant holds at every point of every interleaving |
| `CoreMachine.RunSafety` | src/cthread.c:222-263 | in every run from `cthread_init`: state and signal are paired, a HALTED core is not in `vcore_run`, a running core is in one of five states, the hot-loop assertion and the assertion of continue never fail |
| `CoreMachine.NoLostWakeup` | src/cthread.c:15-26 | a parked core thread without a pending notification has signal and state both equal to what it waits on |
| `CoreMachine.RunFlag` | src/cthread.c:73-82 | from the first signal that a call really performs, `atomic_exit_loop` is clear exactly when the signal is START |
| `CoreMachine.RunFlagBefore` | src/cthread.c:284-290 | until then the flag is clear although the signal is HALT, and the core is untouched |
| `CoreMachine.ContinueWhileHaltPendingBreaksTheRun` | src/cthread.c:107-130 | concrete run from `cthread_init` in which a continue accepted in HALT_PENDING makes the hot-loop assertion fail |
| `CoreMachine.ContinueIsSafeExactly` | src/cthread.c:107-114 | the state a caller sees decides: a continue keeps the run loop safe in all cores of that state if and only if the state is not HALT_PENDING |
| `HaltAck.HaltEntersPending` | src/cthread.c:136-152 | a halt leaves HALTED alone and enters HALT_PENDING from every other state |
| `HaltAck.HaltPendingIsLive` | src/cthread.c:15-26 | while a halt is pending the core thread always has a step to take and is never asleep unnotified |
| `HaltAck.HaltPendingStep` | src/cthread.c:222-263 | every core-thread step decreases the distance to the acknowledgement; no other signaller raises it or undoes the halt; the instruction budget never grows |
| `HaltAck.HaltAcknowledged` | src/cpu.c:517-567 | for every interleaving: after at most five steps of the core thread the pending halt has become HALTED, with at most one further instruction started |
| `HaltAck.HaltAccounted` | src/cpu.c:517-567 | at every point the pending halt has become HALTED, or every step the core thread took brought it closer |
| `HaltAck.DistanceIsExact` | src/cthread.c:222-263 | there each step of the core thread takes exactly one off, and the last one acknowledges |
| `HaltAck.DistanceOutsideSteps` | src/cthread.c:136-152 | outside a step call the acknowledgement is at most four steps away |
| `Acknowledge.RequestEntersPending` | src/cthread.c:28-86 | a request that is taken makes the core pending, with the request as its signal |
| `Acknowledge.ContinueEntersPending` | src/cthread.c:104-134 | a continue of a HALTED core makes it pending, with the buffered signal |
| `Acknowledge.DispatchObeys` | src/cthread.c:222-263 | whatever the signal is, dispatching on it gives the state it asks for, and the thread runs or waits accordingly |
| `Acknowledge.RemainingIsExact` | src/cthread.c:15-26 | a pending START, STOP, SUSPEND or continue: the thread is not asleep for good, each of its steps takes one off the distance, and the last one gives the state asked for |
| `Acknowledge.OthersKeepPending` | src/cthread.c:28-152 | no call of anybody else but a halt disturbs that |
| `Acknowledge.RequestAccounted` | src/cthread.c:222-272 | over every run without a halt: acknowledged, or the steps the thread took are exactly what the distance has lost |
| `Acknowledge.RequestAcknowledged` | src/cthread.c:222-272 | so every such request is acknowledged within four steps of the thread, whatever the interleaving |
| `Acknowledge.RequestServed` | src/cthread.c:222-272 | the same for a core inside the machine, with all other cores, halt-alls and the debugger running |
| `StepHandshake.StepCallStarts` | src/cthread.c:158-171 | a step call on a halted core starts the handshake, at most nine due steps from its return |
| `StepHandshake.HandshakeIsLive` | src/cthread.c:173-184 | until the call returns somebody always has a due step |
| `StepHandshake.HandshakeStep` | src/cthread.c:173-184 | outside the window every due step comes closer to the return, and no step of anybody moves away |
| `StepHandshake.StepCallAccounted` | src/cthread.c:158-187 | without a halt in the window the call has, at every point, returned with the core HALTED, or every due step of either party brought it closer to that |
| `StepHandshake.RemainingIsExact` | src/cthread.c:158-187 | on a core that executes its instruction each due step takes exactly one off what remains |
| `StepHandshake.StepCallReturns` | src/cthread.c:158-187 | so it has returned after as many due steps as remain at its start, at most nine |
| `StepHandshake.StepCallHangs` | src/cthread.c:173-176 | with a halt between STEPPING and the wake-up of the debugger it never returns |
| `StepHandshake.WindowHaltHappens` | src/cthread.c:173-176 | concrete run from `cthread_init` into that window |
| `StepHandshake.StepExecutesOne` | src/cthread.c:248-258 | a returned step call has executed exactly one instruction if `old_signal` is START, none otherwise |
| `HsmRefinement.AgreementStep` | src/cthread.c:60-71 | a step keeps `signal` equal to `old_signal` outside the halt and step states if and only if it is not an HSM request buffered in CONTINUE_PENDING |
| `HsmRefinement.AgreementIffNoOvertaking` | src/cthread.c:60-86 | over whole runs: the two agree throughout if and only if no request overtook a continue |
| `HsmRefinement.BufferFollowsHsm` | src/cthread.c:36-66 | `old_signal` changes exactly on accepted requests, and as a debug-free HSM changes |
| `HsmRefinement.RestingAccepts` | src/cthread.c:36-67 | a core at rest takes a start if it is not started and any other request if it is, enters the pending state between the two states, and otherwise nothing changes |
| `HsmRefinement.PendingRefuses` | src/cthread.c:36-67 | while an earlier request is pending, a request changes nothing |
| `HsmRefinement.DebugRefinesHsm` | src/cthread.c:104-134 | under any nesting of halt, step and continue `old_signal` is the state of a debug-free HSM after the same accepted requests, and a resting core rests in it |
| `HsmRefinement.OvertakenCoreRestsInTheWrongState` | src/cthread.c:62-71 | concrete run in which an overtaking request leaves the core resting in a state the HSM has left |
| `HsmRefinement.HsmStateIsAnHsmState` | src/cthread.c:199-220 | `cthread_get_hsm_state` answers with an HSM state if and only if the core is not in CONTINUE_PENDING |
| `HsmRefinement.HsmStateTold` | src/cthread.c:199-220 | outside the debugger the guest is told the state itself, and in HALTED, STEPPING and HALT_PENDING a resting one |
| `HsmRefinement.HsmStateHiddenByHalt` | src/cthread.c:199-220 | a halt does not change the HSM state the guest is told |
| `HsmRefinement.DebugIsHidden` | src/cthread.c:199-220 | from a halt on and short of a continue the guest is told the state of the debug-free HSM after the requests accepted meanwhile |
| `Manager.ManagerIsDisciplined` | src/threads_mgr2.c:81-141 | every continue and step the manager issues finds its core HALTED |
| `Manager.HaltedIsStable` | src/threads_mgr2.c:40-51 | HALTED is stable under every event of every thread except the continue and the step of the debugger |
| `Manager.SystemInvStep` | src/threads_mgr2.c:81-144 | every event of any number of cores, halt-all calls and the debugger keeps the system invariant |
| `Manager.SystemSafety` | src/cthread.c:222-263 | for any number of cores and every interleaving: each core keeps its invariant, none that is HALTED is running, the hot-loop assertion holds, until a check of the manager itself ends the process |
| `Manager.AnswerIsASnapshot` | src/threads_mgr2.c:40-51 | if the one-by-one check answers yes, all cores are HALTED at the same time |
| `Manager.MutualExclusion` | src/threads_mgr2.c:94-144 | halt-all and continue-all never interleave |
| `Manager.HaltAllReaches` | src/threads_mgr2.c:99-104 | all cores a halt-all has passed are halted or about to halt, until the debugger itself releases one |
| `Manager.HolderProgress` | src/threads_mgr2.c:99-143 | the holder of the manager mutex always has a next event, and it comes closer to unlocking |
| `Manager.HolderUndisturbed` | src/threads_mgr2.c:99-143 | no event of another thread moves the holder away from unlocking |
| `Locks.LocksInvStep` | src/threads_mgr2.c:81-144 | with a mutex per core, locked around each critical section and given back at its end, at each wait and before the run loop: every locking, section and lock-free event keeps the invariant of the mutexes |
| `Locks.SectionsAreGuarded` | src/cthread.c:28-272 | every step on a core other than executing an instruction and reading the exit flag is under that core's mutex |
| `Locks.UnguardedLooksAtNoCore` | src/threads_mgr2.c:40-144 | outside the core mutexes the calls of the manager do not depend on any core |
| `Locks.StillPossible` | src/cthread.c:15-263 | what a thread is about to do under a core mutex it can still do after any event of another thread |
| `Locks.CoreHolderRuns` | src/cthread.c:28-187 | a thread that holds a core mutex holds no other core mutex, does not wait for the manager mutex, and can perform its section at once |
| `Locks.WaitsDescend` | src/threads_mgr2.c:94-144 | lock order: a thread waited for, over the manager mutex or a core mutex, has a lower rank than the one that waits |
| `Locks.WaitChainsAreShort` | src/threads_mgr2.c:94-144 | so a row of waiting threads has at most two links and is never a circle |
| `Locks.NoDeadlock` | src/threads_mgr2.c:94-144 | whenever a thread waits, the one it waits for or the one that one waits for can move at once |
| `Locks.RunNeverDeadlocks` | src/threads_mgr2.c:94-144 | both, at every point of every run |
| `Locks.LockingIsInvisible` | src/threads_mgr2.c:94-144 | every state reached with the mutexes spelled out is reached by a run of the manager |
| `Projection.CoreRuns` | src/cthread.c:265-272 | along every path of the whole machine the states and steps of a core are a legal run of that core |
| `SystemRuns.SystemFlag` | src/cthread.c:73-82 | exit-flag agreement for every core of the machine |
| `SystemRuns.SystemRefinesHsm` | src/cthread.c:104-134 | the debug/HSM refinement for every core of the machine |
| `SystemRuns.Settles` | src/cthread.c:136-152 | a core told to halt, at most four steps of its thread away, is HALTED or each of those steps brought it closer, with the hands of the debugger off |
| `SystemRuns.KeptHalted` | src/threads_mgr2.c:40-51 | halted cores stay halted, and a check begun meanwhile does not answer no |
| `SystemRuns.AllSettle` | src/threads_mgr2.c:94-105 | when every core is told to halt, all are HALTED once every thread with a halt to acknowledge has taken its at most four steps |
| `SystemRuns.HaltAllHalts` | src/threads_mgr2.c:94-105 | after a halt-all and those steps all cores are HALTED and stay so, and a check begun since then has, when it has come to its end, answered yes |
| `SystemRuns.CheckCounts` | src/threads_mgr2.c:40-51 | a check over halted cores looks at one core with each of its turns and then answers yes, however other threads interleave |
| `SystemRuns.CheckIsLive` | src/threads_mgr2.c:43-50 | a check that has begun can always go on |
| `SystemRuns.NoHaltInTheWindow` | src/cthread.c:173-176 | while all other cores are halted no event is a halt in the window of a step call |
| `SystemRuns.StepUnderSnapshotReturns` | src/threads_mgr2.c:81-92 | a step issued while all other cores are halted has, at every point and whatever the machine does, returned, or every due step of it, at most nine in all, brought it closer to that |
| `SystemRuns.StepGoPosts` | src/threads_mgr2.c:86-91 | the step call of the manager on a halted core is such a step |
| `SystemRuns.StepIsLive` | src/cthread.c:173-184 | until such a call returns a due step of it is possible in the machine, or the next event of the halt-all its core is inside |
| `SystemRuns.HaltIsLive` | src/cthread.c:136-152 | until a core told to halt is HALTED the next step of its thread is possible, or of the halt-all it is inside, or of the holder of the manager mutex that halt-all waits for |
| `ContinueAll.ContinueAllBegins` | src/threads_mgr2.c:126-133 | over halted cores a continue-all does not find the manager mutex busy and starts its first loop |
| `ManagerCalls.ContinueAllPasses` | src/threads_mgr2.c:130-141 | at every point of a continue-all, whatever is interleaved: no core was continued in the first loop, and in the second one each core passed exactly once and no other |
| `ManagerCalls.ContinueAllContinuesAll` | src/threads_mgr2.c:118-144 | so between taking the mutex and giving it back every core is continued exactly once |
| `ManagerCalls.ContinueReachesItsCore` | src/threads_mgr2.c:107-116 | a continue acts on the core it names, still HALTED by then, and on no other |
| `ManagerCalls.StepReachesItsCore` | src/threads_mgr2.c:81-92 | and so does a step |
| `ManagerCalls.ContinueIsServed` | src/threads_mgr2.c:107-144 | a core continued by either call, and not halted again, does what its buffered signal says within four steps of its thread |
| `ManagerCalls.HaltAllAlone` | src/threads_mgr2.c:94-105 | without interference a halt-all leaves every core as one halt does |
| `ManagerCalls.CheckAlone` | src/threads_mgr2.c:40-51 | without interference the check answers whether all cores are HALTED |
| `ManagerCalls.ContinueAllAlone` | src/threads_mgr2.c:118-144 | without interference a continue-all leaves every HALTED core as one continue does |
| `ContinueAll.StillNeverCrashes` | src/threads_mgr2.c:81-136 | over halted cores no event makes a check of the manager fail |
| `ContinueAll.HeldMachineNeverCrashes` | include/stubb_a_dub/src/builder.c:379-386 | from a halted machine, through any checks, steps and step-overs up to the end of the continue that follows, no check of the manager fails |
| `ContinueAll.HeldAtFirst` | src/threads_mgr2.c:53-79 | the machine is such a one when it is initialised |
| `ContinueAll.HeldAfterYes` | src/threads_mgr2.c:40-51 | and after every check that answers yes |
| `ContinueAll.CrashExactly` | src/threads_mgr2.c:81-136 | the manager crashes exactly when it tests a core that is not HALTED |
| `ContinueAll.SafeIffTestedHalted` | src/threads_mgr2.c:81-136 | over whole stretches of a run: no crash if and only if every core is HALTED by the time a command tests it |
| `ContinueAll.SafeAfterYes` | src/threads_mgr2.c:40-51 | after a check that answered yes no command crashes, up to the end of the continue that lets the machine go |
| `ContinueAll.HasteIsReached` | include/stubb_a_dub/src/builder.c:53-59 | concrete run in which the debugger continues a core and halts all cores without waiting |
| `ContinueAll.CommandsInHasteCrash` | src/threads_mgr2.c:81-136 | the step, continue or continue-all that follows at once crashes |
| `WithoutDebugger.OtherCoresNeverRun` | src/main.c:61-66 | without a debugger no core but the first ever leaves HALTED or executes an instruction |
| `WithoutDebugger.HartStartOnlyLooksStarted` | src/supervisor/sbi.c:117-128 | so a hart start of another core is answered as STARTED from then on while the core stays HALTED |
| `Cthread.CoreThread.constructor` | src/cthread.c:274-296 | the initial core, which satisfies the invariant |
| `Cthread.CoreThread.SignalHsm` | src/cthread.c:28-86 | the fields change as the HSM transition of the state machine |
| `Cthread.CoreThread.SignalContinue` | src/cthread.c:104-134 | the continue transition, or the assertion about `old_signal`, which no HSM signal triggers |
| `Cthread.CoreThread.SignalHalt` | src/cthread.c:136-152 | the halt transition |
| `Cthread.CoreThread.StepEnter` | src/cthread.c:158-175 | the step call up to its first wait; refused exactly when the core is not HALTED |
| `Cthread.CoreThread.StepWakeUp` | src/cthread.c:173-187 | the step call from a wake-up to its next wait or its return |
| `Cthread.CoreThread.WaitOnSign` | src/cthread.c:15-26 | one round of the wait loop: acknowledge if due, then park |
| `Cthread.CoreThread.FsmEnter` | src/cthread.c:222-251 | dispatch on the signal |
| `Cthread.CoreThread.FsmWakeUp` | src/cthread.c:222-263 | a wake-up re-tests the signal, and steps only if `old_signal` is START |
| `Cthread.CoreThread.GetHsmState` | src/cthread.c:199-220 | debug states are answered by the buffered signal |
| `Cthread.ThreadsMgr.AreHalted` | src/threads_mgr2.c:40-51 | true exactly when every core is HALTED |
| `Cthread.ThreadsMgr.HaltCores` | src/threads_mgr2.c:94-105 | every core takes the halt transition |
| `Cthread.ThreadsMgr.ContinueCores` | src/threads_mgr2.c:118-144 | busy lock, broken invariant or all cores continued; nothing changes unless all were HALTED |
| `MulDiv.ProductsFit` | src/cpu.c:207-230 | no 64-bit intermediate of the multiplications overflows |
| `MulDiv.ExactProducts` | src/cpu.c:207-230 | MULH, MULHSU or MULHU paired with MUL is the exact 64-bit product, for all operands |
| `MulDiv.GuardsKeepDivisionDefined` | src/cpu.c:139-161 | the guards let through exactly the operands for which the native division is defined |
| `MulDiv.SignedDivision` | src/cpu.c:231-242 | dividend = quotient * divisor + remainder with the bound and the sign of the remainder |
| `MulDiv.UnsignedDivision` | src/cpu.c:235-246 | the same for DIVU and REMU |
| `MulDiv.SpecialCases` | src/cpu.c:139-161 | division by zero and overflow, as in section 7.2 of the RISC-V Unprivileged ISA |
| `MulDiv.MatchesSpec` | src/cpu.c:207-246 | all eight M instructions compute what the ISA specifies |
| `Words.ShiftsAgree` | src/cpu.c:194-198 | the arithmetic shift of a signed value is the sign-filling shift of the word |
| `Words.SignExtension` | src/cpu.c:393-404 | OR-ing ones above a byte or half-word is sign extension |
| `Words.BitwiseOperations` | src/cpu.c:172-183 | each bit of AND, OR and XOR is the boolean operation on the two bits in its place |
| `Words.BitsDecide` | src/cpu.c:172-183 | and a word is determined by its bits |
| `Words.ShiftLeft` | src/cpu.c:184-188 | a left shift multiplies by a power of two, modulo the word |
| `Words.ShiftRight` | src/cpu.c:189-193 | a logical right shift divides by it |
| `Words.ShiftRightSigned` | src/cpu.c:194-198 | an arithmetic right shift divides the signed value by it, rounding down |
| `Words.SignedValue` | src/cpu.c:199-202 | the signed value of a word is the one two's-complement number of its residue class |
| `Isa.RegisterWords` | src/cpu.c:64-73 | the encodings are the words assemblers write: ADD to SLTU |
| `Isa.LogicWords` | src/cpu.c:64-73 | XOR to AND |
| `Isa.MultiplicationWords` | src/cpu.c:75-78 | MUL to MULHU |
| `Isa.DivisionWords` | src/cpu.c:79-82 | DIV to REMU |
| `Isa.ImmediateWords` | src/cpu.c:64-73 | the immediate instructions |
| `Isa.MemoryWords` | src/cpu.c:93-105 | loads and stores |
| `Isa.BranchWords` | src/cpu.c:84-91 | branches |
| `Isa.JumpWords` | src/cpu.c:40-58 | JAL, JALR, LUI and AUIPC |
| `Simulation.DecodersInvertEncodings` | src/cpu.c:44-57 | each immediate decoder recovers the sign-extended immediate of its format |
| `Simulation.DecodersCarry` | src/cpu.c:44-57 | for every word that is an instruction the decoders extract exactly that instruction |
| `Isa.DecodeEncode` | src/cpu.c:15-57 | reference for the decoders: the encodings of sections 2.2 to 2.6 and 7.1 of the ISA decode to the instruction they encode |
| `Isa.EncodeDecode` | src/cpu.c:15-57 | and every word that decodes is the encoding of what it decodes to |
| `Simulation.InstructionsAreEncodings` | src/cpu.c:15-57 | so a word counts as an instruction exactly if it is the encoding of one |
| `Simulation.RValueAgrees` | src/cpu.c:163-249 | the R-type switch computes the value the ISA specifies |
| `Simulation.SimulatesImmediate` | src/cpu.c:256-317 | the register-immediate switch, shifts told apart by all function bits |
| `Simulation.SimulatesMemory` | src/cpu.c:387-446 | loads and stores in bounds, with sign extension |
| `Simulation.SimulatesControl` | src/cpu.c:320-385 | branches, JAL, LUI, AUIPC |
| `Simulation.SimulatesJalr` | src/cpu.c:369-373 | JALR is executed as specified if and only if the target is even and the link register is not the base, or the two deviations cancel |
| `Simulation.JalrThroughItsLinkDeviates` | src/cpu.c:369-373 | the word of jalr x1, 0(x1), fetched and executed with 0x100 in x1, does not do what the ISA says |
| `Simulation.JalrToAnOddTargetDeviates` | src/cpu.c:369-373 | nor does the word of jalr x1, 0(x2) with 0x101 in x2 |
| `Simulation.IterationSimulates` | src/cpu.c:514-563 | one iteration of `vcore_run` on any RV32IM instruction gives the ISA's registers, PC and memory; for JALR if and only if the condition above holds |
| `Simulation.EncodingSimulates` | src/cpu.c:514-563 | the same for every RV32IM instruction on its encoding |
| `Simulation.NoInstructionExits` | src/cpu.c:522-562 | a word that is no RV32IM instruction ends the process if and only if it has not the JALR opcode, is none of the eleven atomics and no SYSTEM word with immediate 0 or 1 |
| `Simulation.JalrOpcodeIsNotDecoded` | src/cpu.c:545-547 | concrete word with the JALR opcode that is no instruction |
| `Simulation.AnyFunctionIsJalr` | src/cpu.c:545-547 | under the JALR opcode every function code is executed as JALR |
| `Atomics.AtomicsExactly` | src/cpu.c:107-119 | under the opcode of the A extension a word is executed exactly with function code 2 and one of eleven upper codes, and ends the process otherwise |
| `Atomics.AmoIsExecutedUnlessOr` | src/cpu.c:107-119 | of the instructions of the A extension all are executed except AMOOR: the code at line 114 is not its code in the ISA |
| `Atomics.AmoOrExits` | src/cpu.c:114 | concrete AMOOR word that ends the process |
| `Simulation.RunSimulates` | src/cpu.c:514-567 | whole runs of the interpreter follow the ISA, with `regs[0]` as scratch |
| `Vcore.RTypeValue` | src/cpu.c:133-249 | guards and switch of `vcore_r_type`, all divisions behind their guards |
| `Vcore.VCore.RType` | src/cpu.c:133-254 | the register file after an R-type instruction |
| `Vcore.VCore.IrType` | src/cpu.c:256-317 | the register file after a register-immediate instruction |
| `Vcore.VCore.BType` | src/cpu.c:320-360 | the PC after a branch |
| `Vcore.VCore.JType` | src/cpu.c:363-367 | JAL links and jumps |
| `Vcore.VCore.IjType` | src/cpu.c:369-373 | JALR links before it reads its base |
| `Vcore.VCore.IlType` | src/cpu.c:387-422 | loads, or an access outside memory |
| `Vcore.VCore.SType` | src/cpu.c:424-446 | stores, or an access outside memory |
| `Vcore.VCore.DispatchOn` | src/cpu.c:526-563 | the opcode switch |
| `Vcore.VCore.Iterate` | src/cpu.c:517-563 | one iteration in place is the iteration function |
| `Vcore.VCore.Run` | src/cpu.c:514-567 | the loop until the exit flag is first read as set |
| `Memory.ReadBack` | src/memory.h:33-47 | a stored word is read back |
| `Memory.LoadsCompose` | src/memory.h:25-35 | a word load is two half-word loads and a half-word load two byte loads, lower half at the lower address |
| `Memory.StoresCompose` | src/memory.h:37-47 | and so for stores |
| `Memory.SmallerReadBack` | src/memory.h:37-43 | bytes and half-words are read back, reduced to their width |
| `Memory.StoresStayInPlace` | src/memory.h:37-47 | no other byte changes |
| `Memory.Restore` | src/memory.h:33-47 | writing back the word that was there restores memory |
| `Memory.Vmem.LoadWord` | src/memory.h:33-35 | little-endian word load |
| `Memory.Vmem.LoadHalf` | src/memory.h:29-31 | little-endian half-word load |
| `Memory.Vmem.StoreHalf` | src/memory.h:41-43 | half-word store, nothing else changes |
| `Memory.Vmem.StoreWord` | src/memory.h:45-47 | word store, nothing else changes |
| `Breakpoints.BreakpointTable.InsertBreakpoint` | include/stubb_a_dub/src/breakpoint.c:15-37 | the first empty slot takes the word, memory gets EBREAK; an EBREAK is never saved; a full table refuses |
| `Breakpoints.BreakpointTable.FindBreakpoint` | include/stubb_a_dub/src/breakpoint.c:50-59 | the first full slot with the address, or none |
| `Breakpoints.BreakpointTable.RemoveBreakpoint` | include/stubb_a_dub/src/breakpoint.c:39-48 | the saved word goes back and the slot is emptied |
| `Breakpoints.BreakpointTable.BreakpointHart` | include/stubb_a_dub/src/breakpoint.c:90-99 | the first core that stands on a planted breakpoint, or -1 exactly if none does |
| `Breakpoints.InsertAgrees` | include/stubb_a_dub/src/breakpoint.c:15-37 | insertion keeps table and memory standing for the same original memory, and succeeds exactly if a slot is free |
| `Breakpoints.InsertPlants` | include/stubb_a_dub/src/breakpoint.c:23-33 | over any other instruction exactly this breakpoint is added |
| `Breakpoints.InsertIsIdempotent` | include/stubb_a_dub/src/breakpoint.c:22-34 | inserting again changes nothing; it is reported as an error exactly when the table is full by then |
| `Breakpoints.RemoveAgrees` | include/stubb_a_dub/src/breakpoint.c:39-48 | removal keeps the original memory, succeeds exactly if planted, and unplants this address and no other |
| `Breakpoints.PerformAllAgrees` | include/stubb_a_dub/src/breakpoint.c:15-59 | any sequence of insertions and removals at aligned addresses keeps the agreement |
| `Breakpoints.EmptyTableIsOriginal` | include/stubb_a_dub/src/breakpoint.c:39-48 | with nothing planted memory is the original memory byte for byte |
| `Breakpoints.RemovingAllRestores` | include/stubb_a_dub/src/breakpoint.c:39-48 | removing every planted breakpoint, in any order, restores memory exactly |
| `Transparency.EbreakStops` | src/user/cpu_user.c:11-17 | the planted word decodes to an instruction that stops the core and leaves PC, registers and memory |
| `Transparency.IterationTwins` | src/cpu.c:514-563 | away from the breakpoints an instruction that uses no planted word as data does the same in patched and in original memory |
| `Transparency.TurnIsTransparent` | src/cpu.c:517-567 | one turn of the run loop on a debugged program is one or no turn of the bare program |
| `Transparency.StepOverIsTransparent` | include/stubb_a_dub/src/breakpoint.c:65-83 | a step over a breakpoint executes exactly the instruction under it, always finds a slot to insert again, and leaves the same breakpoints planted |
| `Transparency.SessionIsTransparent` | include/stubb_a_dub/src/breakpoint.c:65-83 | any session of inserting, removing, running onto and stepping over breakpoints visits exactly the registers, PC and original memory of the bare run, and fails if and only if the bare run fails |
| `Transparency.SessionLeavesNoTrace` | include/stubb_a_dub/src/breakpoint.c:15-83 | a session that starts and ends without breakpoints ends in exactly the state of the bare run |
| `Transparency.AlignedFetch` | include/stubb_a_dub/src/breakpoint.c:15-37 | an aligned fetch never cuts a planted word |
| `StepOver.StepTheBreakpoint` | include/stubb_a_dub/src/breakpoint.c:65-83 | remove, step, insert on table, memory and core in place |
| `StepOverCall.CallExecutes` | src/cthread.c:248-258 | a step call that returns has executed one instruction on a started core, none on any other |
| `StepOverCall.NoInstructionStaysPut` | include/stubb_a_dub/src/breakpoint.c:65-83 | a step over that executes nothing leaves the hart, memory and the set of breakpoints as they were |
| `StepOverCall.StepOverByCall` | include/stubb_a_dub/src/breakpoint.c:65-83 | leaving a breakpoint through the step call of the thread: a started core executes exactly the instruction under it, a stopped or suspended one stays on it; either way the same breakpoints stay planted |
| `Parser.BuffChecksum` | include/stubb_a_dub/src/buffer.c:155-165 | the sum of the payload bytes modulo 256 |
| `Parser.ChecksumAdds` | include/stubb_a_dub/src/buffer.c:155-165 | the checksums of two parts add up modulo 256 |
| `Parser.ChecksumOfOne` | include/stubb_a_dub/src/buffer.c:155-165 | and that of one byte is the byte |
| `Parser.SumFitsAnInt` | include/stubb_a_dub/src/buffer.c:155-165 | up to eight megabytes of payload the int sum does not overflow |
| `Parser.ParseResumes` | include/stubb_a_dub/src/parser.c:16-86 | parsing a part first and then the whole ends as parsing the whole at once |
| `Parser.ChunksDoNotMatter` | include/stubb_a_dub/src/parser.c:16-86 | for any bytes cut into any sequence of reads the parser ends in the same phase, index and payload bounds as in one call |
| `Parser.ParserRecognises` | include/stubb_a_dub/src/parser.c:23-85 | the loop, whose non-consuming turn still terminates, decides exactly a grammar given by positions, in both modes and for every outcome |
| `Parser.FinishedOnPackets` | include/stubb_a_dub/src/parser.c:23-85 | with acknowledgements on, FINISHED is reached exactly for skipped bytes, `+$`, payload, `#` and two characters whose value is the payload sum modulo 256 |
| `Parser.PacketIsUnique` | include/stubb_a_dub/src/parser.c:42-59 | the bounds found are those of the packet, however it is read |
| `Parser.PacketParser.ResetParser` | include/stubb_a_dub/src/parser.c:11-14 | a fresh parser; the static checksum character stays |
| `Parser.PacketParser.Advance` | include/stubb_a_dub/src/parser.c:24-84 | one turn of the loop |
| `Parser.PacketParser.ParsePacket` | include/stubb_a_dub/src/parser.c:16-86 | the loop in place is the parsing function |
| `Frame.ChecksumReadsBack` | include/stubb_a_dub/src/parser.c:66-73 | the two digits that `sprintf` writes for a checksum are read back by `strtol` and the cast |
| `Frame.FrameRoundTrip` | include/stubb_a_dub/src/builder.c:545-572 | a fresh parser finds the payload of a frame again if and only if the payload has no `#`, also across the switch of acknowledgements |
| `Conversation.PartOfAFrame` | include/stubb_a_dub/src/parser.c:51-74 | with acknowledgements on only the whole frame is decided; with them off everything from the `#` on |
| `Conversation.HeadIsDispatched` | include/stubb_a_dub/src/stub.c:101-155 | a packet at the head of what arrives is dispatched by the first reads that bring enough of it |
| `Conversation.WellCutIsServed` | include/stubb_a_dub/src/stub.c:101-155 | a packet that ends with a read and is well cut is dispatched once, with its payload, and leaves nothing behind |
| `Conversation.BadlyCutIsRefused` | include/stubb_a_dub/src/stub.c:118-154 | with acknowledgements off a packet cut behind its `#` is dispatched and then refused |
| `Conversation.LostHead` | include/stubb_a_dub/src/stub.c:140-154 | once the head of a packet is lost the payloads are not all dispatched any more |
| `Conversation.SecondPacketOfAReadIsDropped` | include/stubb_a_dub/src/stub.c:140-154 | what follows a complete packet in the same read is dropped |
| `Conversation.NackIsAnswered` | include/stubb_a_dub/src/stub.c:131-139 | a read that begins with a negative acknowledgement makes the stub send its last reply again, and dispatches nothing |
| `Conversation.ConversationIsServed` | include/stubb_a_dub/src/stub.c:101-155 | whole conversations cut into reads in any way: every payload is dispatched in order and nothing else happens if and only if every packet ends with a read and, with acknowledgements off, that read has its whole tail |
| `Builder.StubConversation` | include/stubb_a_dub/src/stub.c:101-155 | the same with the rule of the stub: acknowledgements stay on until QStartNoAckMode |
| `Hex.DecodeEncode` | include/stubb_a_dub/src/utils.c:8-74 | decoding the hexadecimal form of any bytes returns them |
| `Hex.EncodeDecode` | include/stubb_a_dub/src/utils.c:8-74 | the hexadecimal form of decoded lower-case digits is those digits |
| `Hex.DecodedValue` | include/stubb_a_dub/src/utils.c:13-43 | digits of any length, odd or even, decode to the bytes of the number they write |
| `Hex.HexCharsToBytes` | include/stubb_a_dub/src/utils.c:8-51 | too small a destination is refused and left alone; digits fill it with their bytes and zeros; a bad character is reported and only complete pairs before it are written |
| `Hex.HexStrToBytes` | include/stubb_a_dub/src/utils.c:53-56 | the same on a C string |
| `Hex.BytesToHexChars` | include/stubb_a_dub/src/utils.c:59-74 | two digits for every byte, nothing else changes |
| `Registers.TargetReadRegs` | include/stubb_a_dub/src/target.c:29-45 | the block holds the little-endian bytes of all registers |
| `Registers.TargetWriteRegs` | include/stubb_a_dub/src/target.c:47-56 | the registers are set from the block, the others stay |
| `Registers.SetWhatWasRead` | include/stubb_a_dub/src/builder.c:124-175 | a `G` with the reply of `g` sets exactly the registers `g` saw |
| `Registers.ReadWhatWasSet` | include/stubb_a_dub/src/builder.c:136-175 | registers set by a `G` read back as its text; those with non-hex fields read as before |
| `Registers.BuildReadRegs` | include/stubb_a_dub/src/builder.c:124-134 | the reply of `g` |
| `Registers.BuildWriteRegs` | include/stubb_a_dub/src/builder.c:136-175 | a `G` of the right length changes exactly the registers whose field is all digits; any other changes nothing |
| `Tokenizer.CursorTokenizer` | include/stubb_a_dub/src/extract.c:12-33 | the cursor ends at most one beyond the end, exactly one NUL is written, inside the payload or at its end; the scan begins at the second character |
| `Tokenizer.TokensAreFields` | include/stubb_a_dub/src/extract.c:12-33 | where the payload has all fields, successive calls return them if and only if no field is empty before its terminator |
| `Tokenizer.EmptyFieldIsSwallowed` | include/stubb_a_dub/src/extract.c:20-33 | concrete payload with an empty first field, whose extraction aborts |
| `Tokenizer.JoinedFieldsComeBack` | include/stubb_a_dub/src/extract.c:12-33 | non-empty fields written with terminators between them come back |
| `Tokenizer.ExtractUint64` | include/stubb_a_dub/src/extract.c:50-63 | the number in the token, refused when negative or saturated |
| `Tokenizer.ExtractUint32` | include/stubb_a_dub/src/extract.c:35-48 | the number in the token, refused when negative or above 32 bits |
| `Tokenizer.ExtractStr` | include/stubb_a_dub/src/extract.c:65-67 | the token as a C string |
| `Strtol.NumbersAreReadBack` | include/stubb_a_dub/src/extract.c:50-63 | a number written in hexadecimal is read back, up to the saturation of `strtol` |
| `Strtol.DigitTable` | include/stubb_a_dub/src/extract.c:50-63 | the digits of `strtol` with base 16, in both cases |
| `Strtol.SignsAreRead` | include/stubb_a_dub/src/extract.c:50-63 | a sign in front of a number negates it or not, up to saturation at both ends |
| `Strtol.PrefixesAreSkipped` | include/stubb_a_dub/src/extract.c:50-63 | leading spaces and an 0x prefix are skipped |
| `Strtol.DigitsStop` | include/stubb_a_dub/src/extract.c:50-63 | the number ends at the first character that is no digit |
| `Tokenizer.NumbersExactly` | include/stubb_a_dub/src/extract.c:35-63 | the numbers in hexadecimal that each extraction takes, and that no negative number but zero is taken |
| `Commands.Extract` | include/stubb_a_dub/src/builder.c:33-40 | a row of extractions returns the values, refuses or aborts as its specification says |
| `Commands.ArgsRoundTrip` | include/stubb_a_dub/src/builder.c:177-236 | numbers of the right width written in hexadecimal are extracted again, and what follows them is left |
| `Commands.AddressBound` | include/stubb_a_dub/src/extract.c:50-63 | two extracted numbers are below LONG_MAX and their sum does not wrap in 64 bits |
| `Commands.RangeIsInMemory` | include/stubb_a_dub/src/builder.c:186-192 | so the check is exact for every packet, and the 32-bit cast of an address that passes it lossless |
| `Commands.ReadMemAborts` | include/stubb_a_dub/src/builder.c:186-187 | an `m` packet trips the assertion of the tokenizer exactly when its number is good and no comma follows its first character |
| `Builder.WriteThenRead` | include/stubb_a_dub/src/builder.c:177-236 | after an `M` packet that writes some bytes, the reply to the `m` packet for them is the text that wrote them; all other bytes stay |
| `Builder.Stub.ReadReg` | include/stubb_a_dub/src/builder.c:86-104 | the register in hexadecimal, or the error |
| `Builder.Stub.WriteReg` | include/stubb_a_dub/src/builder.c:106-122 | exactly the register named is set, to the low 32 bits |
| `Builder.Stub.ReadRegs` | include/stubb_a_dub/src/builder.c:124-134 | the register block of the selected core |
| `Builder.Stub.WriteRegs` | include/stubb_a_dub/src/builder.c:136-175 | exactly the registers with all-digit fields change |
| `Builder.Stub.ReadMem` | include/stubb_a_dub/src/builder.c:177-203 | memory in hexadecimal if the range ends below the last byte, else the error |
| `Builder.Stub.WriteMem` | include/stubb_a_dub/src/builder.c:205-236 | exactly the bytes of the text are written, or nothing; a text with a bad character changes nothing outside the range |
| `Builder.Stub.SetMode` | include/stubb_a_dub/src/builder.c:242-254 | acknowledgements are turned off by exactly one command and never on |
| `Builder.Stub.Query` | include/stubb_a_dub/src/builder.c:256-314 | the reply to every query, compared after both overlapping cuts |
| `Builder.QueryBeforeComma` | include/stubb_a_dub/src/builder.c:256-314 | so a command in front of a comma is recognised |
| `Builder.Stub.SelectCore` | include/stubb_a_dub/src/builder.c:452-472 | the core selected by `Hg` |
| `Builder.Stub.InsertPoint` | include/stubb_a_dub/src/builder.c:474-508 | OK exactly for a software breakpoint of four bytes inside memory with a free slot, which is then inserted; otherwise nothing changes |
| `Builder.Stub.RemovePoint` | include/stubb_a_dub/src/builder.c:510-543 | OK exactly for a planted software breakpoint, which is then removed; otherwise nothing changes |
| `Builder.BuildRegisterFields` | include/stubb_a_dub/src/builder.c:436-444 | all registers in a stop reply |
| `VPacket.DecidePlan` | include/stubb_a_dub/src/builder.c:333-406 | the plan of a `v` packet in the buffer is `Plans`, which the packets below pin down |
| `VPacket.AllCoresPackets` | include/stubb_a_dub/src/builder.c:375-403 | for every buffer that holds it: `vCont;c` and `vCont;c:-1` continue all cores; any other action for all cores is refused |
| `VPacket.OneCorePackets` | include/stubb_a_dub/src/builder.c:364-403 | `vCont;c:n` continues core n - 1 and `vCont;s:n` steps it; any other action and any id beyond the cores is refused |
| `VPacket.OtherVPackets` | include/stubb_a_dub/src/builder.c:333-350 | `vCont?` asks for the features, `vCont` alone looks beyond its end, and every other name is unknown |
| `VPacket.ThreadIds` | include/stubb_a_dub/src/builder.c:364-373 | a thread id from one on stands for the core before it, -1 for all cores, others are refused |
| `VPacket.ThreadZero` | include/stubb_a_dub/src/builder.c:369-373 | thread id 0 stands for the selected core if and only if that is the first |
| `VPacket.PlannedCore` | include/stubb_a_dub/src/builder.c:364-373 | a core that is to be continued or stepped exists |
| `Builder.Stub.BuildV` | include/stubb_a_dub/src/builder.c:333-446 | the reply to a `v` packet, and the core it reports: the one asked for, or the first that stands on a breakpoint |
| `Builder.VReplyIsClean` | include/stubb_a_dub/src/builder.c:333-446 | no reply to a `v` packet contains `#` |
| `Builder.Stub.Build` | include/stubb_a_dub/src/builder.c:556-562 | for every command character the reply and the new registers, memory, breakpoints, selected core and mode are those of its command, an unknown one gets an empty reply and changes nothing; no reply contains `#` |
| `Packets.ReadRegister` | include/stubb_a_dub/src/builder.c:86-104 | packet `p` n: the four bytes of register n, least significant first, or the error from 33 on |
| `Packets.WriteRegister` | include/stubb_a_dub/src/builder.c:106-122 | packet `P` n=v: exactly register n is set to the low 32 bits, or an error and no change |
| `Packets.ReadRegisters` | include/stubb_a_dub/src/builder.c:124-134 | packet `g`: field i of the 33 is register i |
| `Packets.WriteRegisters` | include/stubb_a_dub/src/builder.c:136-175 | packet `G`: field i sets register i if it is all digits, and nothing else changes |
| `Packets.WriteRegistersFails` | include/stubb_a_dub/src/builder.c:136-145 | a `G` of another length is an error |
| `Packets.ReadMemory` | include/stubb_a_dub/src/builder.c:177-203 | packet `m` a,l: the range in hexadecimal if it ends below the last byte, else the error, for all numbers |
| `Packets.WriteMemory` | include/stubb_a_dub/src/builder.c:205-236 | packet `M` a,l:bytes: memory is the old one with the bytes at a, or an error and no change |
| `Packets.InsertPacket` | include/stubb_a_dub/src/builder.c:474-508 | packet `Z` type,a,kind: inserts the breakpoint exactly for type 0, kind 4, an address in memory and a free slot |
| `Packets.RemovePacket` | include/stubb_a_dub/src/builder.c:510-543 | packet `z` type,a,kind: removes it exactly for type 0, kind 4 and a planted address in memory |
| `Packets.SelectPacket` | include/stubb_a_dub/src/builder.c:452-472 | packet `Hg` n: selects core n - 1, the first for 0, or an error and no change |
| `Packets.ModePacket` | include/stubb_a_dub/src/builder.c:242-254 | packet `QStartNoAckMode` turns acknowledgements off, every other `Q` gets an empty reply |
| `Packets.PlainPackets` | include/stubb_a_dub/src/builder.c:556-562 | packets `?` and `T`, and the characters without a builder |
| `Replies.QueryOf` | include/stubb_a_dub/src/builder.c:256-314 | a query with or without a colon and anything behind it is the query of that name |
| `Replies.CurrentThread` | include/stubb_a_dub/src/builder.c:306-309 | packet `qC`: the decimal number in the reply is the selected core plus one |
| `Replies.FirstThreads` | include/stubb_a_dub/src/builder.c:293-301 | packet `qfThreadInfo`: the reply, taken apart at its commas, is the list of the ids 1 to n |
| `Replies.OtherThreads` | include/stubb_a_dub/src/builder.c:302-304 | packet `qsThreadInfo`: the end of the list |
| `Replies.FeaturesAsked` | include/stubb_a_dub/src/builder.c:289-291 | packet `qSupported`: the features |
| `Replies.SymbolsOffered` | include/stubb_a_dub/src/builder.c:311-313 | packet `qSymbol`: OK |
| `Replies.ExtraAsked` | include/stubb_a_dub/src/builder.c:267-287 | packet `qThreadExtraInfo,n`: the name of core n - 1 in hexadecimal, or the error |
| `Replies.DecimalReadsBack` | include/stubb_a_dub/src/builder.c:293-309 | the decimal digits written are those of the number, without a leading zero |
| `Replies.RegisterField` | include/stubb_a_dub/src/builder.c:436-444 | characters 12k to 12k + 11 of the registers in a stop reply are the id k and the value of register k |
| `Replies.OneCoreStops` | include/stubb_a_dub/src/builder.c:408-446 | the stop reply to a packet for one core: the interrupt, or the id and the registers of that core |
| `Replies.AllCoresStop` | include/stubb_a_dub/src/builder.c:408-446 | the stop reply to a packet for all cores: the first core on a breakpoint, if there is one |
| `Replies.OnExactly` | include/stubb_a_dub/src/builder.c:408-446 | a core is on a breakpoint exactly if a full slot has its PC |
| `Replies.RunOneCore` | include/stubb_a_dub/src/builder.c:333-446 | from the text of `vCont;c:n` or `vCont;s:n` in the buffer to the reply |
| `Replies.RunAllCores` | include/stubb_a_dub/src/builder.c:333-446 | from the text of `vCont;c` in the buffer to the reply |
| `Replies.NothingRuns` | include/stubb_a_dub/src/builder.c:340-406 | the replies to `v` packets that run nothing |
| `Builder.FrameReply` | include/stubb_a_dub/src/builder.c:551-571 | the appends produce the frame, checksum included, or what is left of it when appends fail, which the program does not notice |
| `Builder.Stub.BuildResp` | include/stubb_a_dub/src/builder.c:545-572 | the command is answered as its builder says, or an empty packet with an empty reply and no change; every reply sent is read back by a fresh parser as exactly the payload built, in the mode before and in the mode after |
| `PktBuffer.Buffer.Create` | include/stubb_a_dub/src/buffer.c:11-33 | an empty buffer of that size, none for size zero |
| `PktBuffer.Buffer.Reset` | include/stubb_a_dub/src/buffer.c:40-48 | empties the buffer, and leaves it consistent if and only if it has not grown to the threshold |
| `PktBuffer.ResetSpoilsAGrownBuffer` | include/stubb_a_dub/src/buffer.c:40-48 | concrete buffer that is left with a block smaller than its bookkept size |
| `PktBuffer.Buffer.Expand` | include/stubb_a_dub/src/buffer.c:50-58 | twice the size with the same contents, or nothing when memory runs out |
| `PktBuffer.Buffer.Append` | include/stubb_a_dub/src/buffer.c:64-73 | all of the bytes behind the contents, or unchanged contents when memory runs out; the size is the least doubling that fits |
| `PktBuffer.GrownByDoubling` | include/stubb_a_dub/src/buffer.c:50-73 | the size is doubled as often as needed and no more |
| `PktBuffer.SizesDoNotWrap` | include/stubb_a_dub/src/buffer.c:50-73 | for objects within the limit of C neither the sum nor the doubling wraps in a size_t |
| `PktBuffer.AppendAll` | include/stubb_a_dub/src/buffer.c:64-73 | over any sequence of appends the contents are the concatenation of everything appended |
| `PktBuffer.Buffer.ToSocket` | include/stubb_a_dub/src/buffer.c:115-143 | under any results of the write calls what is sent is a prefix of the contents, all of it exactly on OK, and enough progress ends in OK |

## Left out

- What the instructions of the A extension do, FENCE, ECALL and the supervisor build (traps, CSRs, SBI, virtual memory): an atomic instruction and a system call end a run of the model; HSM requests appear as requests from any core.
- `vcore_init` of the supervisor build, which clears the flag of another core without its mutex: the flag is taken to be written by the code of the core protocol alone.
- Accesses and fetches outside guest memory: the program does not check them; they end a run of the model.
- Misaligned accesses are ordinary little-endian accesses; misaligned jump targets do not trap, as in the program.
- Memory-order arguments, pthread creation and destruction, and failures of pthread calls: atomics and condition variables are sequentially consistent steps.
- More than one core under breakpoints: transparency is stated for a single core.
- A program that reads or writes a planted word as data, or jumps into the middle of one: outside the transparency theorem.
- Cthread.ThreadsMgr.AreHalted: the loop is stated without interference; with it, the property is Manager.AnswerIsASnapshot; ManagerCalls.CheckAlone ties the two.
- Cthread.ThreadsMgr.HaltCores: the loop is stated without interference and without the manager mutex; with them, the properties are Manager.HaltAllReaches and SystemRuns.HaltAllHalts; ManagerCalls.HaltAllAlone ties them.
- Cthread.ThreadsMgr.ContinueCores: the loop is stated without interference and with the outcome of the try-lock as a parameter; Manager has both, and ManagerCalls.ContinueAllAlone ties them.
- Builder.Stub.InsertPoint: a breakpoint in the last three bytes of memory runs over its end; the model reports that and does not describe the state after it.
- Builder.Stub.RemovePoint: the same for removing such a breakpoint.
- Builder.Stub.BuildV: does not model what happens between the plan and the reply (stepping over breakpoints, continuing, waiting for the halt), because those are the subject of StepOver and Manager; how the program came to a stop is a parameter.
- Builder.Stub.Build: for a `v` packet the same holds.
- Builder.Stub.BuildResp: for a `v` packet the same holds; a payload is appended as one piece.
- Parser.BuffChecksum: the sum is unbounded; Parser.SumFitsAnInt says up to which length the program's int is, too.
- PktBuffer.Buffer.Append: sizes are unbounded; PktBuffer.SizesDoNotWrap says why a size_t does not wrap.
- StepOver.StepTheBreakpoint: the state after a step that leaves the model (an unknown instruction, a system call) is not described.
- Sockets, windowing, the loaders, host system calls, option parsing and logging.
