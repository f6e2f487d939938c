/**
 * Small complete runs of both policies, worked out cycle by cycle. HALT is
 * fetched and dispatched like any other instruction, so it is counted in
 * the instruction counter.
 */
module Scenarios {
  import opened Isa
  import opened Threads
  import Blocked
  import FineGrained
  import Stats

  const Halt: Instruction := Instruction(HALT, 0, 0, 0, false)

  /** Every thread runs `ADDI r1, r0, #5; HALT`. */
  function AddiThenHalt(pc: nat, tid: nat): Instruction {
    if pc == 0 then Instruction(ADDI, 1, 0, 5, true) else Halt
  }

  /** Every thread runs `LOAD r1, (r0 + 0); HALT`. */
  function LoadThenHalt(pc: nat, tid: nat): Instruction {
    if pc == 0 then Instruction(LOAD, 1, 0, 0, true) else Halt
  }

  /** Every thread runs `NOP; HALT`. */
  function NopThenHalt(pc: nat, tid: nat): Instruction {
    if pc == 0 then Instruction(NOP, 0, 0, 0, false) else Halt
  }

  /** One thread, `ADDI r1, r0, #5; HALT`, blocked policy: 2 cycles, 2 instructions, r1 = 5. */
  lemma AddiBlocked()
    ensures var c := Config(1, 0, 0, 0, AddiThenHalt);
      ValidConfig(c) &&
      var r := Blocked.Simulate(c, Blocked.Init(1, map[]), 2);
      && r.1 && r.0.cycles == 2 && r.0.insts == 2
      && r.0.tasks[0].regs[1] == 5
      && Stats.Cpi(r.0.cycles, r.0.insts) == 1.0
  {
    var c := Config(1, 0, 0, 0, AddiThenHalt);
    var s0 := Blocked.Init(1, map[]);
    var s1 := Blocked.Next(c, s0);
    assert s1.tasks[0] == Task(0, false, 1, ZeroRegs[1 := 5]);
    var s2 := Blocked.Next(c, s1);
    assert s2.tasks[0] == Task(0, true, 1, ZeroRegs[1 := 5]);
    assert Blocked.Simulate(c, s0, 2) == Blocked.Simulate(c, s1, 1) == Blocked.Simulate(c, s2, 0);
  }

  /** The same program under the fine-grained policy: the same counts and r1 = 5. */
  lemma AddiFineGrained()
    ensures var c := Config(1, 0, 0, 0, AddiThenHalt);
      ValidConfig(c) &&
      var r := FineGrained.Simulate(c, FineGrained.Init(1, map[]), 2);
      && r.1 && r.0.cycles == 2 && r.0.insts == 2
      && r.0.tasks[0].regs[1] == 5
  {
    var c := Config(1, 0, 0, 0, AddiThenHalt);
    var s0 := FineGrained.Init(1, map[]);
    FineGrained.DispatchChoice(s0);
    var s1 := FineGrained.Next(c, s0);
    assert s1.tasks[0] == Task(0, false, 1, ZeroRegs[1 := 5]);
    FineGrained.DispatchChoice(s1);
    var s2 := FineGrained.Next(c, s1);
    assert s2.tasks[0] == Task(0, true, 2, ZeroRegs[1 := 5]);
    assert FineGrained.Simulate(c, s0, 2) == FineGrained.Simulate(c, s1, 1) == FineGrained.Simulate(c, s2, 0);
  }

  /**
   * One thread, `LOAD r1, (r0 + 0); HALT` with load latency 3, blocked
   * policy: the LOAD cycle leaves delay 3, three idle cycles follow (a
   * failed switch search, then the idle charge, each time), then HALT
   * runs: 5 cycles, 2 instructions.
   */
  lemma LoadBlocked()
    ensures var c := Config(1, 3, 0, 0, LoadThenHalt);
      ValidConfig(c) &&
      var r := Blocked.Simulate(c, Blocked.Init(1, map[]), 8);
      && r.1 && r.0.cycles == 5 && r.0.insts == 2
  {
    var c := Config(1, 3, 0, 0, LoadThenHalt);
    var s0 := Blocked.Init(1, map[]);
    var s1 := Blocked.Next(c, s0);
    assert s1.tasks[0].delay == 3 && s1.cycles == 1 && !s1.idle;
    var s2 := Blocked.Next(c, s1);
    var s3 := Blocked.Next(c, s2);
    StallRound(c, s1);
    var s4 := Blocked.Next(c, s3);
    var s5 := Blocked.Next(c, s4);
    StallRound(c, s3);
    var s6 := Blocked.Next(c, s5);
    var s7 := Blocked.Next(c, s6);
    StallRound(c, s5);
    assert s7.tasks[0].delay == 0 && s7.cycles == 4 && !s7.idle;
    var s8 := Blocked.Next(c, s7);
    assert s8.tasks[0].halted && s8.cycles == 5 && s8.insts == 2;
    Blocked.SimulateUnfold(c, s0, s1, 8, 7);
    Blocked.SimulateUnfold(c, s1, s2, 7, 6);
    Blocked.SimulateUnfold(c, s2, s3, 6, 5);
    Blocked.SimulateUnfold(c, s3, s4, 5, 4);
    Blocked.SimulateUnfold(c, s4, s5, 4, 3);
    Blocked.SimulateUnfold(c, s5, s6, 3, 2);
    Blocked.SimulateUnfold(c, s6, s7, 2, 1);
    Blocked.SimulateUnfold(c, s7, s8, 1, 0);
  }

  /**
   * On a blocked core with one thread, a stalled thread costs two
   * iterations: a switch search that finds nobody and sets the idle flag,
   * then the idle cycle that ticks its delay once.
   */
  lemma StallRound(c: Config, s: Blocked.Machine)
    requires ValidConfig(c) && Blocked.Wf(s) && |s.tasks| == 1 && !s.idle
    requires !s.tasks[0].halted && s.tasks[0].delay > 0
    ensures var r := Blocked.Next(c, s);
      && r == s.(idle := true) && !AllHalted(r.tasks)
      && Blocked.Next(c, r) == s.(tasks := [s.tasks[0].(delay := s.tasks[0].delay - 1)], cycles := s.cycles + 1)
  {
    assert FirstReady(s.tasks, s.cur, 1) == None;
    var r := Blocked.Next(c, s);
    assert r == s.(idle := true);
    assert Ticked(r.tasks) == [s.tasks[0].(delay := s.tasks[0].delay - 1)];
  }

  /**
   * Two threads, each `NOP; HALT`, fine-grained policy: 4 cycles, 4
   * instructions, CPI 1.
   */
  lemma NopsFineGrained()
    ensures var c := Config(2, 0, 0, 0, NopThenHalt);
      ValidConfig(c) &&
      var r := FineGrained.Simulate(c, FineGrained.Init(2, map[]), 4);
      && r.1 && r.0.cycles == 4 && r.0.insts == 4
      && Stats.Cpi(r.0.cycles, r.0.insts) == 1.0
  {
    var c := Config(2, 0, 0, 0, NopThenHalt);
    var s0, s1, s2, s3, s4 := NopStates();
    assert FineGrained.Simulate(c, s0, 4) == FineGrained.Simulate(c, s1, 3) == FineGrained.Simulate(c, s2, 2);
    assert FineGrained.Simulate(c, s2, 2) == FineGrained.Simulate(c, s3, 1) == FineGrained.Simulate(c, s4, 0);
  }

  /** The same run dispatches thread 0, 1, 0, 1. */
  lemma NopsFineGrainedOrder()
    ensures var c := Config(2, 0, 0, 0, NopThenHalt);
      var s0 := FineGrained.Init(2, map[]);
      && ValidConfig(c)
      && FineGrained.Dispatched(FineGrained.Steps(c, s0, 0)) == Some(0)
      && FineGrained.Dispatched(FineGrained.Steps(c, s0, 1)) == Some(1)
      && FineGrained.Dispatched(FineGrained.Steps(c, s0, 2)) == Some(0)
      && FineGrained.Dispatched(FineGrained.Steps(c, s0, 3)) == Some(1)
  {
    var c := Config(2, 0, 0, 0, NopThenHalt);
    var s0, s1, s2, s3, s4 := NopStates();
    assert FineGrained.Steps(c, s0, 1) == s1;
    assert FineGrained.Steps(c, s0, 2) == s2;
    assert FineGrained.Steps(c, s0, 3) == s3;
    FineGrained.DispatchChoice(s0);
    FineGrained.DispatchChoice(s1);
    FineGrained.DispatchChoice(s2);
    FineGrained.DispatchChoice(s3);
  }

  /** The five states of the two-thread NOP;HALT run, each the iteration of the one before. */
  lemma NopStates() returns (s0: FineGrained.Machine, s1: FineGrained.Machine, s2: FineGrained.Machine,
                             s3: FineGrained.Machine, s4: FineGrained.Machine)
    ensures var c := Config(2, 0, 0, 0, NopThenHalt);
      && ValidConfig(c)
      && s0 == FineGrained.Init(2, map[])
      && FineGrained.Wf(s0) && FineGrained.Wf(s1) && FineGrained.Wf(s2) && FineGrained.Wf(s3)
      && s1 == FineGrained.Next(c, s0) && s2 == FineGrained.Next(c, s1)
      && s3 == FineGrained.Next(c, s2) && s4 == FineGrained.Next(c, s3)
      && s0.cur == 0 && s1.cur == 1 && s2.cur == 0 && s3.cur == 1
      && Ready(s0.tasks[0]) && Ready(s1.tasks[1]) && Ready(s2.tasks[0]) && Ready(s3.tasks[1])
      && !AllHalted(s0.tasks) && !AllHalted(s1.tasks) && !AllHalted(s2.tasks) && !AllHalted(s3.tasks)
      && AllHalted(s4.tasks) && s4.cycles == 4 && s4.insts == 4
  {
    var t0 := InitialTask;
    var t1 := Task(0, false, 1, ZeroRegs);
    var t2 := Task(0, true, 2, ZeroRegs);
    s0 := FineGrained.Init(2, map[]);
    assert s0 == FineGrained.Machine([t0, t0], map[], 0, 0, 0);
    s1 := FineGrained.Machine([t1, t0], map[], 1, 1, 1);
    s2 := FineGrained.Machine([t1, t1], map[], 2, 2, 0);
    s3 := FineGrained.Machine([t2, t1], map[], 3, 3, 1);
    s4 := FineGrained.Machine([t2, t2], map[], 4, 4, 0);
    DispatchesCur(s0, s1);
    DispatchesCur(s1, s2);
    DispatchesCur(s2, s3);
    DispatchesCur(s3, s4);
  }

  /** One fine-grained iteration of the NOP;HALT program from a ready `cur`, stated as its result. */
  lemma DispatchesCur(s: FineGrained.Machine, r: FineGrained.Machine)
    requires |s.tasks| == 2 && s.cur < 2
    requires FineGrained.Wf(s) && Ready(s.tasks[s.cur])
    requires s.tasks[0].delay == 0 && s.tasks[1].delay == 0
    requires var t := s.tasks[s.cur];
      && r.tasks == s.tasks[s.cur := t.(pc := t.pc + 1, halted := t.pc != 0)]
      && r.mem == s.mem && r.cycles == s.cycles + 1 && r.insts == s.insts + 1
      && r.cur == 1 - s.cur
    ensures var c := Config(2, 0, 0, 0, NopThenHalt);
      ValidConfig(c) && FineGrained.Next(c, s) == r
  {
    var c := Config(2, 0, 0, 0, NopThenHalt);
    FineGrained.DispatchChoice(s);
    var t := s.tasks[s.cur];
    assert c.fetch(t.pc, s.cur) == NopThenHalt(t.pc, s.cur);
    var e := Exec(t, c.fetch(t.pc, s.cur), s.mem, c);
    assert e.0 == t.(halted := t.pc != 0) && e.1 == s.mem;
    assert (s.cur + 1) % 2 == 1 - s.cur;
  }
}
