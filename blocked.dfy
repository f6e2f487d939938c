/**
 * Blocked (switch-on-stall) multithreading, CORE_BlockedMT: the current
 * thread runs until it halts or stalls on memory; the core then pays the
 * switch penalty to move to the nearest ready thread, or idles one cycle
 * if none is ready.
 */
module Blocked {
  import opened Isa
  import opened Threads
  import Stats

  /** The state of one blocked run between two iterations of its loop. */
  datatype Machine = Machine(
    tasks: seq<Task>,
    mem: Memory,
    cycles: nat,
    insts: nat,
    cur: nat,
    idle: bool)

  predicate Wf(s: Machine) {
    WfTasks(s.tasks) && (|s.tasks| > 0 ==> s.cur < |s.tasks|)
  }

  /** What the loop keeps: instructions never outnumber cycles, a halted thread has no delay. */
  predicate Inv(s: Machine) {
    && Wf(s)
    && s.insts <= s.cycles
    && forall i :: 0 <= i < |s.tasks| && s.tasks[i].halted ==> s.tasks[i].delay == 0
  }

  /** The state CORE_BlockedMT sets up before its loop: n zeroed threads, thread 0 current. */
  function Init(n: nat, mem: Memory): (r: Machine)
    ensures |r.tasks| == n
    ensures forall i :: 0 <= i < n ==>
      r.tasks[i].delay == 0 && !r.tasks[i].halted && r.tasks[i].pc == 0 && |r.tasks[i].regs| == REGS_COUNT
    ensures forall i, j :: 0 <= i < n && 0 <= j < |r.tasks[i].regs| ==> r.tasks[i].regs[j] == 0
    ensures r.mem == mem && r.cycles == 0 && r.insts == 0 && r.cur == 0 && !r.idle
  {
    Machine(seq(n, _ => InitialTask), mem, 0, 0, 0, false)
  }

  /** The thread that executes an instruction in the next iteration, if any. */
  function Dispatched(s: Machine): (r: Option<nat>)
    requires Wf(s) && |s.tasks| > 0
    ensures r.None? <==> s.idle || s.tasks[s.cur].halted || s.tasks[s.cur].delay > 0
    ensures r.Some? ==> r.value == s.cur && Ready(s.tasks[r.value])
  {
    if !s.idle && Ready(s.tasks[s.cur]) then Some(s.cur) else None
  }

  /** The blocked policy's pc rule: every opcode but HALT advances the pc. */
  function NextPc(t: Task, ins: Instruction): (r: nat)
    ensures r == t.pc <==> ins.op.HALT?
    ensures t.pc <= r <= t.pc + 1
  {
    if ins.op.HALT? then t.pc else t.pc + 1
  }

  /** One iteration of the loop of CORE_BlockedMT for a run that has not finished. */
  function Next(c: Config, s: Machine): (r: Machine)
    requires ValidConfig(c) && Wf(s) && |s.tasks| > 0
    ensures Wf(r) && |r.tasks| == |s.tasks|
  {
    var n := |s.tasks|;
    if s.idle then
      s.(tasks := Ticked(s.tasks), cycles := s.cycles + 1, idle := false)
    else if !Ready(s.tasks[s.cur]) then
      match FirstReady(s.tasks, s.cur, 1)
      case Some(d) =>
        s.(tasks := TickedN(s.tasks, c.switchCycles),
           cycles := s.cycles + c.switchCycles,
           cur := (s.cur + d) % n)
      case None => s.(idle := true)
    else
      var t := s.tasks[s.cur];
      var ins := c.fetch(t.pc, s.cur);
      var (t', mem') := Exec(t, ins, s.mem, c);
      s.(tasks := Ticked(s.tasks[s.cur := t'.(pc := NextPc(t, ins))]),
         mem := mem',
         cycles := s.cycles + 1,
         insts := s.insts + 1)
  }

  /**
   * The whole loop of CORE_BlockedMT with at most `fuel` iterations; the
   * flag says whether every thread halted.
   */
  function Simulate(c: Config, s: Machine, fuel: nat): (r: (Machine, bool))
    requires ValidConfig(c) && Wf(s)
    ensures Wf(r.0) && |r.0.tasks| == |s.tasks|
    ensures r.1 <==> AllHalted(r.0.tasks)
    decreases fuel
  {
    if AllHalted(s.tasks) then (s, true)
    else if fuel == 0 then (s, false)
    else Simulate(c, Next(c, s), fuel - 1)
  }

  // ---------------------------------------------------------------------
  // One iteration, branch by branch

  /** An idle iteration costs one cycle and one tick, clears `idle` and runs nothing. */
  lemma IdleIteration(c: Config, s: Machine)
    requires ValidConfig(c) && Wf(s) && |s.tasks| > 0 && s.idle
    ensures var r := Next(c, s);
      && r.cycles == s.cycles + 1 && r.insts == s.insts
      && r.tasks == Ticked(s.tasks) && !r.idle
      && r.cur == s.cur && r.mem == s.mem
      && Dispatched(s) == None
  {
  }

  /**
   * When the current thread is halted or stalled, the switch search takes
   * the ready thread at the smallest cyclic offset 1..n-1, never the current
   * one, and charges exactly the switch penalty; when no other thread is
   * ready it only raises `idle`.
   */
  lemma SwitchIteration(c: Config, s: Machine)
    requires ValidConfig(c) && Wf(s) && |s.tasks| > 0
    requires !s.idle && !Ready(s.tasks[s.cur])
    ensures var r := Next(c, s);
      && Dispatched(s) == None
      && (r.idle <==> forall e :: 1 <= e < |s.tasks| ==> !ReadyAt(s.tasks, s.cur, e))
      && (r.idle ==> r == s.(idle := true))
      && (!r.idle ==>
            && (exists d :: 1 <= d < |s.tasks| && r.cur == (s.cur + d) % |s.tasks|
                  && ReadyAt(s.tasks, s.cur, d)
                  && forall e :: 1 <= e < d ==> !ReadyAt(s.tasks, s.cur, e))
            && r.cur != s.cur
            && r.cycles == s.cycles + c.switchCycles && r.insts == s.insts
            && r.mem == s.mem
            && r.tasks == TickedN(s.tasks, c.switchCycles)
            && Ready(r.tasks[r.cur]))
  {
    var n := |s.tasks|;
    var r := Next(c, s);
    match FirstReady(s.tasks, s.cur, 1)
    case Some(d) =>
      assert r.cur == (s.cur + d) % n;
      OffsetMovesAway(s.cur, d, n);
      TickedNKeepsReady(s.tasks, c.switchCycles, r.cur);
    case None =>
  }

  /** A non-zero offset below n names a different thread. */
  lemma OffsetMovesAway(cur: nat, d: nat, n: nat)
    requires cur < n && 0 < d < n
    ensures (cur + d) % n != cur
  {
    if cur + d < n {
      assert (cur + d) % n == cur + d;
    } else {
      assert (cur + d) % n == cur + d - n;
    }
  }

  /**
   * A dispatch iteration executes one instruction of the ready current
   * thread: one cycle and one instruction are counted, the pc advances
   * unless the opcode is HALT, a LOAD or STORE leaves exactly its latency
   * as delay, and every other thread only ticks.
   */
  lemma DispatchIteration(c: Config, s: Machine)
    requires ValidConfig(c) && Wf(s) && |s.tasks| > 0
    requires !s.idle && Ready(s.tasks[s.cur])
    ensures var r := Next(c, s);
      var t := s.tasks[s.cur];
      var ins := c.fetch(t.pc, s.cur);
      && Dispatched(s) == Some(s.cur)
      && r.cycles == s.cycles + 1 && r.insts == s.insts + 1
      && r.cur == s.cur && !r.idle
      && r.tasks[s.cur].pc == (if ins.op.HALT? then t.pc else t.pc + 1)
      && r.tasks[s.cur].halted == ins.op.HALT?
      && r.tasks[s.cur].delay == (if ins.op.LOAD? then c.loadLat
                                  else if ins.op.STORE? then c.storeLat
                                  else 0)
      && r.tasks[s.cur].regs == Exec(t, ins, s.mem, c).0.regs
      && r.mem == Exec(t, ins, s.mem, c).1
      && forall i :: 0 <= i < |s.tasks| && i != s.cur ==> r.tasks[i] == Tick(s.tasks[i])
  {
  }

  // ---------------------------------------------------------------------
  // Invariants over iterations and runs

  /** An iteration counts at most one instruction and at least as many cycles. */
  lemma NextCounters(c: Config, s: Machine)
    requires ValidConfig(c) && Wf(s) && |s.tasks| > 0
    ensures var r := Next(c, s);
      && s.insts <= r.insts <= s.insts + 1
      && r.insts - s.insts <= r.cycles - s.cycles
      && (r.insts == s.insts + 1 <==> Dispatched(s).Some?)
  {
  }

  /** A halted thread stays exactly as it is. */
  lemma NextFreezesHalted(c: Config, s: Machine, i: nat)
    requires ValidConfig(c) && Inv(s) && |s.tasks| > 0
    requires i < |s.tasks| && s.tasks[i].halted
    ensures Next(c, s).tasks[i] == s.tasks[i]
  {
    var r := Next(c, s);
    if !s.idle && !Ready(s.tasks[s.cur]) && FirstReady(s.tasks, s.cur, 1).Some? {
      TickedNDelay(s.tasks, c.switchCycles, i);
    }
  }

  lemma NextKeepsInv(c: Config, s: Machine)
    requires ValidConfig(c) && Inv(s) && |s.tasks| > 0
    ensures Inv(Next(c, s))
  {
    NextCounters(c, s);
    var r := Next(c, s);
    forall i | 0 <= i < |r.tasks| && r.tasks[i].halted
      ensures r.tasks[i].delay == 0
    {
      if s.tasks[i].halted {
        NextFreezesHalted(c, s, i);
      }
    }
  }

  /** `insts <= cycles` and a halted thread's idleness hold for the whole run. */
  lemma {:induction false} RunKeepsInv(c: Config, s: Machine, fuel: nat)
    requires ValidConfig(c) && Inv(s)
    ensures Inv(Simulate(c, s, fuel).0)
    decreases fuel
  {
    if !AllHalted(s.tasks) && fuel > 0 {
      NextKeepsInv(c, s);
      RunKeepsInv(c, Next(c, s), fuel - 1);
    }
  }

  /** Counters only grow over a run, and halted threads never come back or change. */
  lemma {:induction false} RunFreezesHalted(c: Config, s: Machine, fuel: nat, i: nat)
    requires ValidConfig(c) && Inv(s) && i < |s.tasks| && s.tasks[i].halted
    ensures Simulate(c, s, fuel).0.tasks[i] == s.tasks[i]
    decreases fuel
  {
    if !AllHalted(s.tasks) && fuel > 0 {
      NextFreezesHalted(c, s, i);
      NextKeepsInv(c, s);
      RunFreezesHalted(c, Next(c, s), fuel - 1, i);
    }
  }

  lemma InitInv(n: nat, mem: Memory)
    ensures Inv(Init(n, mem)) && !Init(n, mem).idle
    ensures |Init(n, mem).tasks| == n && AllReady(Init(n, mem).tasks)
  {
  }

  /** Every blocked run that executed something reports a CPI of at least 1. */
  lemma RunCpiAtLeastOne(c: Config, n: nat, mem: Memory, fuel: nat)
    requires ValidConfig(c)
    ensures var r := Simulate(c, Init(n, mem), fuel).0;
      r.insts > 0 ==> Stats.Cpi(r.cycles, r.insts) >= 1.0
  {
    InitInv(n, mem);
    RunKeepsInv(c, Init(n, mem), fuel);
    var r := Simulate(c, Init(n, mem), fuel).0;
    if r.insts > 0 {
      Stats.CpiAtLeastOne(r.cycles, r.insts);
    }
  }

  /** The two outcomes of the switch search, as states of the next iteration. */
  lemma SwitchOutcome(c: Config, s: Machine, found: bool, d: nat)
    requires ValidConfig(c) && Wf(s) && |s.tasks| > 0 && !s.idle && !Ready(s.tasks[s.cur])
    requires found ==> FirstReady(s.tasks, s.cur, 1) == Some(d)
    requires !found ==> FirstReady(s.tasks, s.cur, 1) == None
    ensures found ==> Next(c, s) == s.(tasks := TickedN(s.tasks, c.switchCycles),
                                       cycles := s.cycles + c.switchCycles,
                                       cur := (s.cur + d) % |s.tasks|)
    ensures !found ==> Next(c, s) == s.(idle := true)
  {
  }

  /** A run that has not finished and has fuel left is one iteration followed by the rest. */
  lemma SimulateUnfold(c: Config, s: Machine, s': Machine, fuel: nat, rest: nat)
    requires ValidConfig(c) && Wf(s) && !AllHalted(s.tasks) && fuel == rest + 1
    requires |s.tasks| > 0 && s' == Next(c, s)
    ensures Wf(s') && Simulate(c, s', rest) == Simulate(c, s, fuel)
  {
  }

  // ---------------------------------------------------------------------
  // The run object

  /** One blocked run: the task array and the counters CORE_BlockedMT keeps. */
  class BlockedCore {
    const cfg: Config
    const tasks: array<Task>
    var mem: Memory
    var cycles: nat
    var insts: nat
    var cur: nat
    var idle: bool

    ghost function View(): Machine
      reads this, tasks
    {
      Machine(tasks[..], mem, cycles, insts, cur, idle)
    }

    ghost predicate Valid()
      reads this, tasks
    {
      ValidConfig(cfg) && tasks.Length == cfg.threads && Wf(View())
    }

    /** The set-up of CORE_BlockedMT: every thread zeroed, counters at zero, thread 0 current. */
    constructor (config: Config, mem0: Memory)
      requires ValidConfig(config)
      ensures Valid() && fresh(tasks)
      ensures View() == Init(config.threads, mem0)
      ensures cfg == config
    {
      var a := new Task[config.threads];
      for i := 0 to a.Length
        invariant forall j :: 0 <= j < i ==> a[j] == InitialTask
      {
        a[i] := InitialTask;
      }
      cfg := config;
      tasks := a;
      mem := mem0;
      cycles, insts := 0, 0;
      cur, idle := 0, false;
      new;
      assert tasks[..] == seq(config.threads, _ => InitialTask);
    }

    /** One iteration of the loop of CORE_BlockedMT. */
    method Step()
      requires Valid() && !AllHalted(tasks[..])
      modifies this, tasks
      ensures Valid()
      ensures View() == Next(cfg, old(View()))
    {
      if idle {
        IdleCycle();
      } else if tasks[cur].halted || tasks[cur].delay > 0 {
        Switch();
      } else {
        Dispatch();
      }
    }

    /** The cycle charged after a failed switch search. */
    method IdleCycle()
      requires Valid() && tasks.Length > 0 && idle
      modifies this, tasks
      ensures Valid()
      ensures View() == Next(cfg, old(View()))
    {
      cycles := cycles + 1;
      DecrementAll(tasks);
      idle := false;
    }

    /** The switch search for a stalled or halted current thread. */
    method Switch()
      requires Valid() && tasks.Length > 0 && !idle && !Ready(tasks[cur])
      modifies this, tasks
      ensures Valid()
      ensures View() == Next(cfg, old(View()))
    {
      ghost var s := View();
      var found, d := ScanReady(tasks, cur, 1);
      SwitchOutcome(cfg, s, found, d);
      if found {
        SwitchTo(d);
      } else {
        idle := true;
      }
    }

    /** The successful switch: thread `cur + d` becomes current and the penalty is paid. */
    method SwitchTo(d: nat)
      requires Valid() && tasks.Length > 0 && d < tasks.Length
      modifies this`cur, this`cycles, tasks
      ensures Valid()
      ensures View() == old(View()).(tasks := TickedN(old(tasks[..]), cfg.switchCycles),
                                     cycles := old(cycles) + cfg.switchCycles,
                                     cur := (old(cur) + d) % tasks.Length)
    {
      ModBelowTwice(cur + d, tasks.Length);
      cur := (cur + d) % tasks.Length;
      PaySwitchPenalty();
    }

    /** The `sw` cycles of a thread switch, each one ticking every thread's delay. */
    method PaySwitchPenalty()
      requires Valid()
      modifies this`cycles, tasks
      ensures Valid()
      ensures tasks[..] == TickedN(old(tasks[..]), cfg.switchCycles)
      ensures cycles == old(cycles) + cfg.switchCycles
    {
      for k := 0 to cfg.switchCycles
        invariant tasks[..] == TickedN(old(tasks[..]), k)
        invariant cycles == old(cycles) + k
      {
        cycles := cycles + 1;
        DecrementAll(tasks);
      }
    }

    /** Fetches and executes one instruction of the ready current thread. */
    method Dispatch()
      requires Valid() && tasks.Length > 0 && !idle && Ready(tasks[cur])
      modifies this, tasks
      ensures Valid()
      ensures View() == Next(cfg, old(View()))
    {
      var t := tasks[cur];
      var ins := cfg.fetch(t.pc, cur);
      cycles := cycles + 1;
      insts := insts + 1;
      var (t', mem') := Exec(t, ins, mem, cfg);
      tasks[cur] := t'.(pc := NextPc(t, ins));
      mem := mem';
      DecrementAll(tasks);
    }

    /** The loop of CORE_BlockedMT, cut off after `fuel` iterations. */
    method Run(fuel: nat) returns (finished: bool)
      requires Valid()
      modifies this, tasks
      ensures Valid()
      ensures (View(), finished) == Simulate(cfg, old(View()), fuel)
    {
      var f := fuel;
      while true
        invariant Valid()
        invariant Simulate(cfg, View(), f) == Simulate(cfg, old(View()), fuel)
        decreases f
      {
        var done := AllDone(tasks);
        if done {
          return true;
        }
        if f == 0 {
          return false;
        }
        ghost var s := View();
        Step();
        f := f - 1;
        SimulateUnfold(cfg, s, View(), f + 1, f);
        assert Simulate(cfg, View(), f) == Simulate(cfg, old(View()), fuel);
        assert Valid();
      }
    }

    /** CORE_BlockedMT_CTX: the register file of thread `tid` into row `tid` of `ctx`. */
    method Ctx(ctx: array2<int>, tid: nat)
      requires Valid() && tid < tasks.Length
      requires tid < ctx.Length0 && ctx.Length1 == REGS_COUNT
      modifies ctx
      ensures forall r :: 0 <= r < REGS_COUNT ==> ctx[tid, r] == tasks[tid].regs[r]
      ensures forall i, r :: 0 <= i < ctx.Length0 && 0 <= r < ctx.Length1 && i != tid ==>
        ctx[i, r] == old(ctx[i, r])
    {
      CopyContext(ctx, tid, tasks[tid].regs);
    }
  }
}
