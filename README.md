# Multithreaded in-order CPU simulator: scheduling core

A Dafny model of `src/core_api.c`, the scheduling core of a multithreaded
in-order CPU simulator. The core keeps an array of per-thread records
(`Task`: delay counter, halted flag, pc, register file). It drives this array
under one of two dispatch policies and counts cycles and instructions:

* **Blocked (switch-on-stall), `CORE_BlockedMT`.** The current thread runs
  until it halts or a LOAD/STORE gives it a delay. The core then scans cyclic
  offsets 1..n-1 for a ready thread. If it finds one, it pays the switch
  penalty: that many cycles, one `decrement_all` each. If it finds none, it
  raises `idle`, and the *next* loop iteration charges the idle cycle.
* **Fine-grained (round-robin), `CORE_FinegrainedMT`.** Each cycle the core
  scans offsets 0..n-1 from `cur`. It runs the first ready thread, or charges
  an idle cycle if no thread is ready. After a dispatch, `cur` becomes the
  thread after the one that ran.

Both policies share the opcode interpreter (NOP, ADD, SUB, ADDI, SUBI, LOAD,
STORE, HALT, and a fail-soft default), `decrement_all` (the once-per-cycle
delay tick), the CPI ratio and the register snapshot.

## Layout

| file | module | contents |
|---|---|---|
| `isa.dfy` | `Isa` | opcodes, instructions, data memory, and `Config`: what the `SIM_*` collaborator supplies |
| `threads.dfy` | `Threads` | `Task`, `decrement_all`, the all-done test, the ready-thread scan, the interpreter `Exec`, the context copy |
| `blocked.dfy` | `Blocked` | the blocked policy |
| `finegrained.dfy` | `FineGrained` | the fine-grained policy |
| `stats.dfy` | `Stats` | CPI |
| `scenarios.dfy` | `Scenarios` | small complete runs, worked out cycle by cycle |

Each policy has two layers:

* **Functional layer.** A datatype `Machine` is the state between two loop
  iterations. `Next` is one iteration, and `Simulate` is the whole loop with
  a fuel bound. The lemmas are stated over these functions.
* **Imperative layer.** A class (`BlockedCore`, `FineCore`) mirrors the C
  globals as fields. It owns an `array<Task>` that its methods update in
  place. `Step` is proved to take the object from `View()` to
  `Next(cfg, old(View()))`. `Run` is proved to reach `Simulate`.

The class methods (`DecrementAll`, the penalty loop, the scans, the context
copy) keep the source's loops, each with its invariants.

## How the model reads the code

* `delay` is a `nat`. Every assignment to it is checked to stay
  non-negative, so "delay never goes negative" holds by typing.
* LOAD/STORE set `delay = lat + 1`, and the same cycle's `decrement_all`
  removes one (src/core_api.c:36-37, 132, 141, 154). So right after the
  dispatch the delay equals the configured latency (`DispatchIteration` in
  both policies).
* HALT is counted as an instruction. `blocked_insts++` and `fine_insts++`
  come before the opcode switch (src/core_api.c:95, 203). A one-thread
  `ADDI; HALT` program therefore takes 2 cycles and 2 instructions, for a CPI
  of 1.0. `LOAD; HALT` with load latency 3 takes 5 cycles and 2 instructions
  (`Scenarios.AddiBlocked`, `Scenarios.LoadBlocked`).
* Fine-grained rotation: the code first sets `cur = cand` and then
  `cur = (cur + 1) % n` (src/core_api.c:188, 264). So `cur` ends one past
  the thread that ran, not one past the thread the scan started from.
* pc on HALT: the blocked policy leaves the pc unchanged
  (src/core_api.c:145-147). The fine-grained policy advances it after every
  instruction, HALT included (src/core_api.c:262). `Exec` leaves the pc
  alone, and each policy applies its own rule.
* A run with zero threads is allowed, as in the code: the loop stops at
  once.

## Model

| member | source | states |
|---|---|---|
| `Threads.Tick` | src/core_api.c:29-30 | one cycle passes for one thread: only the delay moves, it never grows, and the thread is ready afterwards exactly when it is not halted and its delay was at most 1 |
| `Threads.Ticked` | src/core_api.c:27-32 | `decrement_all` as a function: the thread count, the halted flags and the non-increase of every delay are kept; a thread is ready afterwards exactly when it is not halted and was at most one cycle away |
| `Threads.DecrementAll` | src/core_api.c:27-32 | the array afterwards is the elementwise tick of the array before |
| `Threads.TickedEffect` | src/core_api.c:27-32 | a positive delay drops by exactly one; a zero delay stays zero; halted, pc and registers are untouched |
| `Threads.TickedN` | src/core_api.c:77-80 | k ticks keep every halted flag, pc and register file |
| `Threads.TickedNDelay` | src/core_api.c:77-80 | after k ticks a delay d has become max(d - k, 0) |
| `Threads.AllDone` | src/core_api.c:57-60 | returns true exactly when every thread is halted |
| `Threads.FirstReady` | src/core_api.c:73-76 | the result is the smallest offset in the range whose thread is ready; it is None exactly when no offset in the range holds a ready thread |
| `Threads.ScanReady` | src/core_api.c:73-84 | found exactly when some offset from `from` to n-1 holds a ready thread; then d is the smallest such offset |
| `Threads.Exec` | src/core_api.c:102-152 | pc is untouched; halted is set only by HALT; delay becomes lat+1 only for LOAD/STORE; only `dst` is written, and only by ADD/SUB/ADDI/SUBI/LOAD; memory changes only for STORE |
| `Threads.ExecResult` | src/core_api.c:107-143 | the value each ALU opcode and LOAD writes to `dst`, and the address and value STORE writes |
| `Threads.CopyContext` | src/core_api.c:280-288 | row `tid` of the context table receives the register file; every other row is unchanged |
| `Blocked.Init` | src/core_api.c:40-53 | n threads with delay 0, not halted, pc 0 and all registers 0; both counters 0; thread 0 current; not idle |
| `Blocked.Dispatched` | src/core_api.c:62-70 | nothing runs exactly when the core is idle or the current thread is halted or has a delay; otherwise the current thread runs, and it is ready |
| `Blocked.NextPc` | src/core_api.c:102-152 | the pc stays exactly when the opcode is HALT, and otherwise advances by one |
| `Blocked.Next` | src/core_api.c:55-155 | one loop iteration keeps the state well formed (register files intact, `cur` in range) |
| `Blocked.Simulate` | src/core_api.c:55-155 | the finished flag is true exactly when every thread is halted at the end |
| `Blocked.IdleIteration` | src/core_api.c:62-67 | with `idle` set: exactly one cycle, one tick, no instruction, `idle` cleared, `cur` and memory kept |
| `Blocked.SwitchIteration` | src/core_api.c:69-88 | a stalled or halted current thread is replaced by the ready thread at the smallest offset 1..n-1, which is never `cur`, for exactly `sw` cycles and no instruction; the task array is exactly `sw` ticks of the old one, memory is kept, and the new current thread is ready; if none is ready, only `idle` is raised |
| `Blocked.DispatchIteration` | src/core_api.c:91-154 | a ready current thread runs one instruction: +1 cycle, +1 instruction; pc advances except on HALT; LOAD/STORE leave exactly their latency as delay; other threads only tick |
| `Blocked.NextCounters` | src/core_api.c:62-95 | an iteration adds at most one instruction, never more instructions than cycles, and an instruction exactly when it dispatches |
| `Blocked.NextFreezesHalted` | src/core_api.c:70-75 | a halted thread's record stays exactly the same through an iteration: the guards of lines 70 and 75 never run or pick it, and only its delay could change, which stays 0 after HALT (line 146) |
| `Blocked.NextKeepsInv` | src/core_api.c:55-155 | an iteration keeps `insts <= cycles`, and keeps halted threads at delay 0 |
| `Blocked.RunKeepsInv` | src/core_api.c:55-155 | `insts <= cycles` holds at the end of every run |
| `Blocked.RunFreezesHalted` | src/core_api.c:145-147 | a thread halted at some point keeps its registers, pc and halted flag for the rest of the run |
| `Blocked.InitInv` | src/core_api.c:40-53 | the initial state satisfies the invariant; every thread starts ready |
| `Blocked.SwitchOutcome` | src/core_api.c:69-88 | the switch search's result decides the next state: a ready thread at offset d gives `cur + d` mod n, `sw` ticks and `sw` cycles; no ready thread only raises `idle` |
| `Blocked.SimulateUnfold` | src/core_api.c:55-60 | a run that has not finished and has fuel left is one iteration followed by the rest of the run |
| `Blocked.RunCpiAtLeastOne` | src/core_api.c:268-272 | every blocked run from the initial state that counted an instruction reports a CPI of at least 1 |
| `Blocked.BlockedCore.constructor` | src/core_api.c:34-53 | n zeroed threads, zero counters, thread 0 current, not idle |
| `Blocked.BlockedCore.Step` | src/core_api.c:55-155 | one iteration on the array takes the object's view to `Next` of the old view |
| `Blocked.BlockedCore.IdleCycle` | src/core_api.c:62-67 | the idle branch on the array, equal to `Next` |
| `Blocked.BlockedCore.Switch` | src/core_api.c:69-88 | the switch branch on the array, equal to `Next` |
| `Blocked.BlockedCore.SwitchTo` | src/core_api.c:75-80 | the successful switch on the array: `cur` becomes `cur + d` mod n, the array is `sw` ticks of the old one, cycles grow by `sw`, nothing else changes |
| `Blocked.BlockedCore.PaySwitchPenalty` | src/core_api.c:77-80 | the array after `sw` penalty cycles equals `sw` ticks of the array before; cycles grow by `sw` |
| `Blocked.BlockedCore.Dispatch` | src/core_api.c:91-154 | the fetch-and-execute branch on the array, equal to `Next` |
| `Blocked.BlockedCore.Run` | src/core_api.c:55-156 | the loop with a fuel bound leaves the object in the state `Simulate` gives, with the same finished flag |
| `Blocked.BlockedCore.Ctx` | src/core_api.c:280-283 | row `tid` of `ctx` holds thread `tid`'s registers; the other rows are unchanged |
| `FineGrained.Init` | src/core_api.c:163-174 | n threads with delay 0, not halted, pc 0 and all registers 0; both counters 0; thread 0 current |
| `FineGrained.Dispatched` | src/core_api.c:184-192 | a dispatched thread is in range and ready |
| `FineGrained.Next` | src/core_api.c:176-265 | one loop iteration keeps the state well formed |
| `FineGrained.Simulate` | src/core_api.c:176-265 | the finished flag is true exactly when every thread is halted at the end |
| `FineGrained.Steps` | src/core_api.c:176-265 | k iterations keep the state well formed |
| `FineGrained.IdleIteration` | src/core_api.c:193-197 | with no ready thread: exactly one cycle, one tick, no instruction, `cur` kept |
| `FineGrained.DispatchChoice` | src/core_api.c:184-192 | the dispatched thread is the ready one at the smallest offset 0..n-1 from `cur`, `cur` included; nothing is dispatched exactly when no thread is ready; a ready `cur` is dispatched |
| `FineGrained.SameDispatchSameNext` | src/core_api.c:184-264 | where the scan starts has no effect on an iteration that dispatches: two states that differ only in `cur` and pick the same thread have the same next state |
| `FineGrained.DispatchIteration` | src/core_api.c:199-264 | the chosen thread runs one instruction: +1 cycle, +1 instruction; pc always advances; LOAD/STORE leave exactly their latency as delay; other threads only tick; `cur` becomes (dispatched + 1) mod n |
| `FineGrained.NextCounters` | src/core_api.c:193-203 | every iteration adds one cycle, and one instruction exactly when it dispatches |
| `FineGrained.NextFreezesHalted` | src/core_api.c:180-187 | a halted thread's record stays exactly the same through an iteration |
| `FineGrained.NextKeepsInv` | src/core_api.c:176-265 | an iteration keeps `insts <= cycles`, and keeps halted threads at delay 0 |
| `FineGrained.RunKeepsInv` | src/core_api.c:176-265 | `insts <= cycles` holds at the end of every run |
| `FineGrained.RunFreezesHalted` | src/core_api.c:254-256 | a thread halted at some point keeps its registers, pc and halted flag for the rest of the run |
| `FineGrained.InitInv` | src/core_api.c:163-174 | the initial state satisfies the invariant; every thread starts ready |
| `FineGrained.AllReadyIteration` | src/core_api.c:184-264 | with all threads ready and no HALT and no LOAD/STORE of non-zero latency in the stream, `cur` runs, all stay ready, and `cur` moves to (cur + 1) mod n |
| `FineGrained.RoundRobin` | src/core_api.c:184-264 | if every thread is ready in each of the states after 0..k iterations (`ReadyThrough`), iteration k dispatches thread (cur + k) mod n, `cur` is (cur + k) mod n, and k cycles and k instructions were counted: the order 0, 1, ..., n-1, 0, ... |
| `FineGrained.ReadyThroughAll` | src/core_api.c:184-192 | "every thread ready after j iterations, for each j in 0..k", stated pointwise, gives the hypothesis `ReadyThrough` of `RoundRobin` |
| `FineGrained.Succ` | src/core_api.c:264 | the thread after `x` on a ring of n threads is (x + 1) mod n, and is in range |
| `FineGrained.RotatedIsMod` | src/core_api.c:264 | moving `cur` on by one k times from `a` lands on (a + k) mod n |
| `FineGrained.RotateSteps` | src/core_api.c:184-264 | under `ReadyThrough`, after k iterations `cur` is `Succ` applied k times, that thread is dispatched next, and k cycles and k instructions were counted |
| `FineGrained.RotateOnce` | src/core_api.c:184-264 | an iteration from an all-ready state that leaves every thread ready moves `cur` to the thread after it, dispatches that thread next, and counts one cycle and one instruction |
| `FineGrained.NonBlockingStaysReady` | src/core_api.c:199-264 | a stream with no HALT and no LOAD/STORE of non-zero latency keeps all threads ready in each of the states after 0..k iterations, for every k: it gives the hypothesis `ReadyThrough` of `RoundRobin` |
| `FineGrained.RunCpiAtLeastOne` | src/core_api.c:274-278 | every fine-grained run from the initial state that counted an instruction reports a CPI of at least 1 |
| `FineGrained.FineCore.constructor` | src/core_api.c:158-174 | n zeroed threads, zero counters, thread 0 current |
| `FineGrained.FineCore.Step` | src/core_api.c:176-265 | one iteration on the array takes the object's view to `Next` of the old view |
| `FineGrained.FineCore.Select` | src/core_api.c:184-191 | the scan's hit becomes `cur`: `cur` is `cur + d` mod n, nothing else changes, and the new `cur` is the thread the old state dispatches |
| `FineGrained.FineCore.IdleCycle` | src/core_api.c:193-197 | the idle branch on the array, equal to `Next` |
| `FineGrained.FineCore.Dispatch` | src/core_api.c:199-264 | the fetch-and-execute branch on the array, equal to `Next` |
| `FineGrained.FineCore.Run` | src/core_api.c:176-266 | the loop with a fuel bound leaves the object in the state `Simulate` gives, with the same finished flag |
| `FineGrained.FineCore.Ctx` | src/core_api.c:285-288 | row `tid` of `ctx` holds thread `tid`'s registers; the other rows are unchanged |
| `Stats.Cpi` | src/core_api.c:268-278 | 0 when no instruction was counted; otherwise CPI times instructions equals cycles exactly |
| `Stats.CpiAtLeastOne` | src/core_api.c:268-278 | with instructions > 0 and instructions <= cycles (the run invariant), CPI >= 1 |
| `Scenarios.AddiBlocked` | src/core_api.c:55-155 | one thread, `ADDI r1,r0,#5; HALT`, blocked: finishes in 2 cycles and 2 instructions, r1 = 5, CPI 1 |
| `Scenarios.AddiFineGrained` | src/core_api.c:176-265 | the same program, fine-grained: 2 cycles, 2 instructions, r1 = 5 |
| `Scenarios.LoadBlocked` | src/core_api.c:55-155 | `LOAD; HALT` with load latency 3, blocked: 5 cycles, 2 instructions |
| `Scenarios.StallRound` | src/core_api.c:62-88 | on a blocked core with one thread, a stalled thread costs a failed search that raises `idle`, then an idle cycle that lowers its delay by one |
| `Scenarios.NopsFineGrained` | src/core_api.c:176-265 | two threads of `NOP; HALT`, fine-grained: finishes in 4 cycles and 4 instructions, CPI 1 |
| `Scenarios.NopsFineGrainedOrder` | src/core_api.c:184-192 | the same run dispatches thread 0, 1, 0, 1 in its four iterations |

## Left out

- The `SIM_*` collaborator is not part of this model. Thread count,
  latencies, switch penalty and instruction fetch are a `Config` value whose
  `fetch` is a total function of (pc, thread id). Data memory is a
  `map<int, int>` held by the run. An address that was never written reads
  as 0, which is an assumption about the unseen `SIM_MemDataRead`.
- `REGS_COUNT` comes from a header that is not part of this model. It is
  taken to be 8.
- `calloc`/`free`: the allocation, and how it could fail, are not modelled.
  The source's CPI calls free the thread table (src/core_api.c:269, 275);
  here `Stats.Cpi` is a pure function of the two counters. So the rule that
  a snapshot must come before the CPI call is not modelled.
- Floating point: CPI is the exact `real` ratio, not a `double`.
- The unbounded `while (true)` loops take a fuel bound (`Simulate`, `Run`).
  A run that never halts is only observed up to its fuel.
- C integer widths: registers, addresses, pc and the `long` counters are
  unbounded integers. Overflow is not modelled.
- Out-of-range register indices: the code does no checking here and
  behaves undefinedly. `ValidConfig` in the model requires every fetched
  instruction to name in-range registers for the operands its opcode uses.
  `Ctx` requires `tid` to be in range.
- The file-scope globals are replaced by one object per run; the two
  policies cannot share state.
- The claim that blocked mode takes at least as many cycles as fine-grained
  mode when there are frequent memory operations and `sw > 0` is not proved.
  It is a statement about typical programs, not a rule of the code, and it
  does not hold for every program.
- Determinism has no lemma: `Next` and `Simulate` are functions, so equal
  inputs give equal results by construction.
