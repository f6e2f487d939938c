/**
 * Fine-grained (round-robin) multithreading, CORE_FinegrainedMT: every
 * cycle the first ready thread at cyclic offset 0..n-1 from `cur` issues
 * one instruction, or the cycle idles; after a dispatch `cur` moves to the
 * thread after the one that ran. There is no switch penalty.
 */
module FineGrained {
  import opened Isa
  import opened Threads
  import Stats

  /** The state of one fine-grained run between two iterations of its loop. */
  datatype Machine = Machine(
    tasks: seq<Task>,
    mem: Memory,
    cycles: nat,
    insts: nat,
    cur: nat)

  predicate Wf(s: Machine) {
    WfTasks(s.tasks) && (|s.tasks| > 0 ==> s.cur < |s.tasks|)
  }

  /** What the loop keeps: instructions never outnumber cycles, a halted thread has no delay. */
  predicate Inv(s: Machine) {
    && Wf(s)
    && s.insts <= s.cycles
    && forall i :: 0 <= i < |s.tasks| && s.tasks[i].halted ==> s.tasks[i].delay == 0
  }

  /** The state CORE_FinegrainedMT sets up before its loop: n zeroed threads, thread 0 current. */
  function Init(n: nat, mem: Memory): (r: Machine)
    ensures |r.tasks| == n
    ensures forall i :: 0 <= i < n ==>
      r.tasks[i].delay == 0 && !r.tasks[i].halted && r.tasks[i].pc == 0 && |r.tasks[i].regs| == REGS_COUNT
    ensures forall i, j :: 0 <= i < n && 0 <= j < |r.tasks[i].regs| ==> r.tasks[i].regs[j] == 0
    ensures r.mem == mem && r.cycles == 0 && r.insts == 0 && r.cur == 0
  {
    Machine(seq(n, _ => InitialTask), mem, 0, 0, 0)
  }

  /** The thread that executes an instruction in the next iteration, if any. */
  function Dispatched(s: Machine): (r: Option<nat>)
    requires |s.tasks| > 0
    ensures r.Some? ==> r.value < |s.tasks| && Ready(s.tasks[r.value])
  {
    match FirstReady(s.tasks, s.cur, 0)
    case Some(d) => Some((s.cur + d) % |s.tasks|)
    case None => None
  }

  /** One iteration of the loop of CORE_FinegrainedMT for a run that has not finished. */
  function Next(c: Config, s: Machine): (r: Machine)
    requires ValidConfig(c) && Wf(s) && |s.tasks| > 0
    ensures Wf(r) && |r.tasks| == |s.tasks|
  {
    var n := |s.tasks|;
    match Dispatched(s)
    case None => s.(tasks := Ticked(s.tasks), cycles := s.cycles + 1)
    case Some(t) =>
      var task := s.tasks[t];
      var ins := c.fetch(task.pc, t);
      var (task', mem') := Exec(task, ins, s.mem, c);
      Machine(Ticked(s.tasks[t := task'.(pc := task.pc + 1)]), mem',
              s.cycles + 1, s.insts + 1, (t + 1) % n)
  }

  /**
   * The whole loop of CORE_FinegrainedMT with at most `fuel` iterations;
   * the flag says whether every thread halted.
   */
  function Simulate(c: Config, s: Machine, fuel: nat): (r: (Machine, bool))
    requires ValidConfig(c) && Wf(s)
    ensures Wf(r.0) && |r.0.tasks| == |s.tasks|
    ensures r.1 <==> AllHalted(r.0.tasks)
    decreases fuel
  {
    if AllHalted(s.tasks) then (s, true)
    else if fuel == 0 then (s, false)
    else Simulate(c, Next(c, s), fuel - 1)
  }

  /** `k` iterations, whether or not threads halt on the way. */
  function Steps(c: Config, s: Machine, k: nat): (r: Machine)
    requires ValidConfig(c) && Wf(s) && |s.tasks| > 0
    ensures Wf(r) && |r.tasks| == |s.tasks|
  {
    if k == 0 then s else Next(c, Steps(c, s, k - 1))
  }

  // ---------------------------------------------------------------------
  // One iteration

  /** With no thread ready the cycle idles: one cycle, one tick, no instruction, `cur` kept. */
  lemma IdleIteration(c: Config, s: Machine)
    requires ValidConfig(c) && Wf(s) && |s.tasks| > 0
    requires forall e :: 0 <= e < |s.tasks| ==> !ReadyAt(s.tasks, s.cur, e)
    ensures Dispatched(s) == None
    ensures Next(c, s) == s.(tasks := Ticked(s.tasks), cycles := s.cycles + 1)
  {
  }

  /**
   * The dispatched thread is the ready one at the smallest cyclic offset
   * 0..n-1 from `cur`, `cur` itself included; nothing is dispatched only
   * when no thread is ready.
   */
  lemma DispatchChoice(s: Machine)
    requires Wf(s) && |s.tasks| > 0
    ensures Dispatched(s).None? <==> forall i :: 0 <= i < |s.tasks| ==> !Ready(s.tasks[i])
    ensures Dispatched(s).Some? ==>
      exists d :: 0 <= d < |s.tasks| && Dispatched(s).value == (s.cur + d) % |s.tasks|
        && ReadyAt(s.tasks, s.cur, d)
        && forall e :: 0 <= e < d ==> !ReadyAt(s.tasks, s.cur, e)
    ensures Ready(s.tasks[s.cur]) ==> Dispatched(s) == Some(s.cur)
  {
    var n := |s.tasks|;
    if FirstReady(s.tasks, s.cur, 0).None? {
      NoneReady(s.tasks, s.cur);
    }
    if Ready(s.tasks[s.cur]) {
      CurReady(s.tasks, s.cur);
      ModBelowTwice(s.cur, n);
      assert Dispatched(s) == Some(s.cur % n);
    }
  }

  /**
   * Two states that differ only in `cur` and dispatch the same thread have
   * the same next state: a dispatching iteration sets `cur` afresh.
   */
  lemma SameDispatchSameNext(c: Config, s: Machine, p: Machine)
    requires ValidConfig(c) && Wf(s) && |s.tasks| > 0
    requires p.cur < |s.tasks| && p == s.(cur := p.cur)
    requires Dispatched(s).Some? && Dispatched(p) == Dispatched(s)
    ensures Wf(p) && Next(c, p) == Next(c, s)
  {
    var t := Dispatched(s).value;
    assert p.tasks == s.tasks && p.mem == s.mem;
    assert Next(c, p).cur == (t + 1) % |s.tasks| == Next(c, s).cur;
  }

  /** No ready thread at any offset from `cur` means no ready thread at all. */
  lemma NoneReady(ts: seq<Task>, cur: nat)
    requires 0 < |ts| && cur < |ts|
    requires forall e :: 0 <= e < |ts| ==> !ReadyAt(ts, cur, e)
    ensures forall i :: 0 <= i < |ts| ==> !Ready(ts[i])
  {
    var n := |ts|;
    forall i | 0 <= i < n
      ensures !Ready(ts[i])
    {
      var e := if i >= cur then i - cur else i + n - cur;
      ModBelowTwice(cur + e, n);
      assert !ReadyAt(ts, cur, e);
    }
  }

  /** The scan from a ready `cur` stops at offset 0. */
  lemma CurReady(ts: seq<Task>, cur: nat)
    requires 0 < |ts| && cur < |ts| && Ready(ts[cur])
    ensures FirstReady(ts, cur, 0) == Some(0)
  {
    ModBelowTwice(cur, |ts|);
    assert ReadyAt(ts, cur, 0);
  }

  /**
   * A dispatch executes one instruction of the chosen thread: one cycle and
   * one instruction are counted, the pc advances (HALT included), a LOAD or
   * STORE leaves exactly its latency as delay, every other thread only
   * ticks, and `cur` becomes the thread after the one that ran.
   */
  lemma DispatchIteration(c: Config, s: Machine)
    requires ValidConfig(c) && Wf(s) && |s.tasks| > 0 && Dispatched(s).Some?
    ensures var t := Dispatched(s).value;
      var r := Next(c, s);
      var task := s.tasks[t];
      var ins := c.fetch(task.pc, t);
      && Ready(task)
      && r.cycles == s.cycles + 1 && r.insts == s.insts + 1
      && r.cur == (t + 1) % |s.tasks|
      && r.tasks[t].pc == task.pc + 1
      && r.tasks[t].halted == ins.op.HALT?
      && r.tasks[t].delay == (if ins.op.LOAD? then c.loadLat
                              else if ins.op.STORE? then c.storeLat
                              else 0)
      && r.tasks[t].regs == Exec(task, ins, s.mem, c).0.regs
      && r.mem == Exec(task, ins, s.mem, c).1
      && forall i :: 0 <= i < |s.tasks| && i != t ==> r.tasks[i] == Tick(s.tasks[i])
  {
  }

  // ---------------------------------------------------------------------
  // Invariants over iterations and runs

  /** An iteration counts one cycle, and one instruction exactly when it dispatches. */
  lemma NextCounters(c: Config, s: Machine)
    requires ValidConfig(c) && Wf(s) && |s.tasks| > 0
    ensures var r := Next(c, s);
      && r.cycles == s.cycles + 1
      && r.insts == s.insts + (if Dispatched(s).Some? then 1 else 0)
  {
  }

  /** A halted thread stays exactly as it is. */
  lemma NextFreezesHalted(c: Config, s: Machine, i: nat)
    requires ValidConfig(c) && Inv(s) && |s.tasks| > 0
    requires i < |s.tasks| && s.tasks[i].halted
    ensures Next(c, s).tasks[i] == s.tasks[i]
  {
  }

  lemma NextKeepsInv(c: Config, s: Machine)
    requires ValidConfig(c) && Inv(s) && |s.tasks| > 0
    ensures Inv(Next(c, s))
  {
    var r := Next(c, s);
    forall i | 0 <= i < |r.tasks| && r.tasks[i].halted
      ensures r.tasks[i].delay == 0
    {
      if s.tasks[i].halted {
        NextFreezesHalted(c, s, i);
      }
    }
  }

  /** `insts <= cycles` and a halted thread's idleness hold for the whole run. */
  lemma {:induction false} RunKeepsInv(c: Config, s: Machine, fuel: nat)
    requires ValidConfig(c) && Inv(s)
    ensures Inv(Simulate(c, s, fuel).0)
    decreases fuel
  {
    if !AllHalted(s.tasks) && fuel > 0 {
      NextKeepsInv(c, s);
      RunKeepsInv(c, Next(c, s), fuel - 1);
    }
  }

  /** A halted thread never runs again and its state never changes for the rest of the run. */
  lemma {:induction false} RunFreezesHalted(c: Config, s: Machine, fuel: nat, i: nat)
    requires ValidConfig(c) && Inv(s) && i < |s.tasks| && s.tasks[i].halted
    ensures Simulate(c, s, fuel).0.tasks[i] == s.tasks[i]
    decreases fuel
  {
    if !AllHalted(s.tasks) && fuel > 0 {
      NextFreezesHalted(c, s, i);
      NextKeepsInv(c, s);
      RunFreezesHalted(c, Next(c, s), fuel - 1, i);
    }
  }

  lemma InitInv(n: nat, mem: Memory)
    ensures Inv(Init(n, mem))
    ensures |Init(n, mem).tasks| == n && AllReady(Init(n, mem).tasks)
  {
  }

  /** Every fine-grained run that executed something reports a CPI of at least 1. */
  lemma RunCpiAtLeastOne(c: Config, n: nat, mem: Memory, fuel: nat)
    requires ValidConfig(c)
    ensures var r := Simulate(c, Init(n, mem), fuel).0;
      r.insts > 0 ==> Stats.Cpi(r.cycles, r.insts) >= 1.0
  {
    InitInv(n, mem);
    RunKeepsInv(c, Init(n, mem), fuel);
    var r := Simulate(c, Init(n, mem), fuel).0;
    if r.insts > 0 {
      Stats.CpiAtLeastOne(r.cycles, r.insts);
    }
  }

  // ---------------------------------------------------------------------
  // Round-robin order

  /**
   * Opcodes after which the thread that ran is not ready in the next cycle:
   * HALT, and a LOAD or STORE whose latency is not zero (a zero latency
   * sets the delay to 1, which the same cycle's tick removes).
   */
  predicate Blocks(c: Config, op: Opcode) {
    op.HALT? || (op.LOAD? && c.loadLat > 0) || (op.STORE? && c.storeLat > 0)
  }

  /** No instruction in the stream ever leaves its thread unready. */
  ghost predicate NonBlocking(c: Config) {
    forall pc: nat, tid: nat :: !Blocks(c, c.fetch(pc, tid).op)
  }

  /** Adding one commutes with reduction modulo n. */
  lemma ModSucc(a: nat, n: nat)
    requires n > 0
    ensures (a % n + 1) % n == (a + 1) % n
  {
    var q, m := a / n, a % n;
    assert a == q * n + m;
    if m + 1 < n {
      DivModUnique(a + 1, q, m + 1, n);
    } else {
      assert a + 1 == (q + 1) * n;
      DivModUnique(a + 1, q + 1, 0, n);
    }
  }

  /** Quotient and remainder are the only ones: x = q*n + m with 0 <= m < n fixes m. */
  lemma DivModUnique(x: int, q: int, m: int, n: int)
    requires n > 0 && 0 <= m < n && x == q * n + m
    ensures x % n == m
  {
    var q', m' := x / n, x % n;
    assert x == q' * n + m';
    assert (q - q') * n == m' - m;
    if q > q' {
      MulAtLeast(q - q', n);
    } else if q < q' {
      assert (q' - q) * n == m - m';
      MulAtLeast(q' - q, n);
    }
  }

  /** A positive multiple of n is at least n. */
  lemma {:induction false} MulAtLeast(a: int, n: int)
    requires a >= 1 && n >= 1
    ensures a * n >= n
    decreases a
  {
    if a > 1 {
      MulAtLeast(a - 1, n);
      assert a * n == (a - 1) * n + n;
    }
  }

  /**
   * While every thread stays ready, the k-th iteration dispatches thread
   * (cur + k) mod n: starting from thread 0 the order is 0, 1, ..., n-1,
   * 0, ..., with no thread skipped or repeated within a round, and every
   * cycle issues an instruction.
   */
  lemma RoundRobin(c: Config, s: Machine, k: nat)
    requires ValidConfig(c) && Wf(s) && |s.tasks| > 0 && ReadyThrough(c, s, k)
    ensures Steps(c, s, k).cur == (s.cur + k) % |s.tasks|
    ensures Dispatched(Steps(c, s, k)) == Some(Steps(c, s, k).cur)
    ensures Steps(c, s, k).cycles == s.cycles + k && Steps(c, s, k).insts == s.insts + k
  {
    RotateSteps(c, s, k);
    RotatedIsMod(s.cur, k, |s.tasks|);
  }

  /** Every thread is ready after `j` iterations. */
  ghost predicate ReadyAfter(c: Config, s: Machine, j: nat)
    requires ValidConfig(c) && Wf(s) && |s.tasks| > 0
  {
    AllReady(Steps(c, s, j).tasks)
  }

  /** Every thread is ready in each of the states after 0..k iterations. */
  ghost predicate ReadyThrough(c: Config, s: Machine, k: nat)
    requires ValidConfig(c) && Wf(s) && |s.tasks| > 0
  {
    ReadyAfter(c, s, k) && (k > 0 ==> ReadyThrough(c, s, k - 1))
  }

  /** Readiness after each of 0..k iterations, stated pointwise, gives `ReadyThrough`. */
  lemma {:induction false} ReadyThroughAll(c: Config, s: Machine, k: nat)
    requires ValidConfig(c) && Wf(s) && |s.tasks| > 0
    requires forall j :: 0 <= j <= k ==> ReadyAfter(c, s, j)
    ensures ReadyThrough(c, s, k)
  {
    if k > 0 {
      ReadyThroughAll(c, s, k - 1);
    }
  }

  /** The thread after `x` on a ring of n threads. */
  function Succ(x: nat, n: nat): (r: nat)
    requires x < n
    ensures r < n && r == (x + 1) % n
  {
    ModBelowTwice(x + 1, n);
    if x + 1 == n then 0 else x + 1
  }

  /** `cur` moved on by one, k times over, from `a` on a ring of n threads. */
  function Rotated(a: nat, k: nat, n: nat): (r: nat)
    requires a < n
    ensures r < n
  {
    if k == 0 then a else Succ(Rotated(a, k - 1, n), n)
  }

  /** Moving on by one k times is adding k modulo n. */
  lemma {:induction false} RotatedIsMod(a: nat, k: nat, n: nat)
    requires a < n
    ensures Rotated(a, k, n) == (a + k) % n
  {
    if k == 0 {
      ModBelowTwice(a, n);
    } else {
      var x: nat := a + (k - 1);
      RotatedIsMod(a, k - 1, n);
      var y := Rotated(a, k - 1, n);
      assert y == x % n;
      ModSucc(x, n);
      assert Succ(y, n) == (x + 1) % n;
      assert x + 1 == a + k;
    }
  }

  /** `RoundRobin` with the position of `cur` given as `Rotated`. */
  lemma {:induction false} RotateSteps(c: Config, s: Machine, k: nat)
    requires ValidConfig(c) && Wf(s) && |s.tasks| > 0 && ReadyThrough(c, s, k)
    ensures Steps(c, s, k).cur == Rotated(s.cur, k, |s.tasks|)
    ensures Dispatched(Steps(c, s, k)) == Some(Steps(c, s, k).cur)
    ensures Steps(c, s, k).cycles == s.cycles + k && Steps(c, s, k).insts == s.insts + k
  {
    if k == 0 {
      ModBelowTwice(s.cur, |s.tasks|);
      DispatchChoice(s);
    } else {
      var p := Steps(c, s, k - 1);
      RotateSteps(c, s, k - 1);
      assert Steps(c, s, k) == Next(c, p);
      RotateOnce(c, p);
    }
  }

  /** An iteration from an all-ready state that leaves every thread ready moves `cur` on by one and runs it next. */
  lemma RotateOnce(c: Config, p: Machine)
    requires ValidConfig(c) && Wf(p) && |p.tasks| > 0 && AllReady(p.tasks)
    requires AllReady(Next(c, p).tasks)
    ensures var r := Next(c, p);
      && r.cur == Succ(p.cur, |p.tasks|)
      && Dispatched(r) == Some(r.cur)
      && r.cycles == p.cycles + 1 && r.insts == p.insts + 1
  {
    DispatchChoice(p);
    DispatchIteration(c, p);
    DispatchChoice(Next(c, p));
  }

  /** A stream with no blocking instruction keeps every thread ready for any number of iterations. */
  lemma {:induction false} NonBlockingStaysReady(c: Config, s: Machine, k: nat)
    requires ValidConfig(c) && NonBlocking(c) && Wf(s) && |s.tasks| > 0 && AllReady(s.tasks)
    ensures ReadyThrough(c, s, k)
  {
    if k > 0 {
      NonBlockingStaysReady(c, s, k - 1);
      AllReadyIteration(c, Steps(c, s, k - 1));
      assert Steps(c, s, k) == Next(c, Steps(c, s, k - 1));
    }
  }

  /** With every thread ready and no blocking opcode, `cur` runs and every thread stays ready. */
  lemma AllReadyIteration(c: Config, s: Machine)
    requires ValidConfig(c) && NonBlocking(c) && Wf(s) && |s.tasks| > 0 && AllReady(s.tasks)
    ensures Dispatched(s) == Some(s.cur)
    ensures var r := Next(c, s);
      && AllReady(r.tasks)
      && r.cur == (s.cur + 1) % |s.tasks|
      && r.cycles == s.cycles + 1 && r.insts == s.insts + 1
  {
    DispatchChoice(s);
    var r := Next(c, s);
    var ins := c.fetch(s.tasks[s.cur].pc, s.cur);
    assert !Blocks(c, ins.op);
    forall i | 0 <= i < |s.tasks|
      ensures Ready(r.tasks[i])
    {
      assert Ready(s.tasks[i]);
    }
  }

  // ---------------------------------------------------------------------
  // The run object

  /** One fine-grained run: the task array and the counters CORE_FinegrainedMT keeps. */
  class FineCore {
    const cfg: Config
    const tasks: array<Task>
    var mem: Memory
    var cycles: nat
    var insts: nat
    var cur: nat

    ghost function View(): Machine
      reads this, tasks
    {
      Machine(tasks[..], mem, cycles, insts, cur)
    }

    ghost predicate Valid()
      reads this, tasks
    {
      ValidConfig(cfg) && tasks.Length == cfg.threads && Wf(View())
    }

    /** The set-up of CORE_FinegrainedMT: every thread zeroed, counters at zero, thread 0 current. */
    constructor (config: Config, mem0: Memory)
      requires ValidConfig(config)
      ensures Valid() && fresh(tasks)
      ensures View() == Init(config.threads, mem0)
      ensures cfg == config
    {
      var a := new Task[config.threads];
      for i := 0 to a.Length
        invariant forall j :: 0 <= j < i ==> a[j] == InitialTask
      {
        a[i] := InitialTask;
      }
      cfg := config;
      tasks := a;
      mem := mem0;
      cycles, insts := 0, 0;
      cur := 0;
      new;
      assert tasks[..] == seq(config.threads, _ => InitialTask);
    }

    /** One iteration of the loop of CORE_FinegrainedMT. */
    method Step()
      requires Valid() && !AllHalted(tasks[..])
      modifies this, tasks
      ensures Valid()
      ensures View() == Next(cfg, old(View()))
    {
      ghost var s := View();
      var ready, d := ScanReady(tasks, cur, 0);
      if !ready {
        IdleCycle();
        return;
      }
      Select(d);
      ghost var p := View();
      Dispatch();
      SameDispatchSameNext(cfg, s, p);
    }

    /** Makes the thread found at offset `d` from `cur` the current one. */
    method Select(d: nat)
      requires Valid() && tasks.Length > 0 && d < tasks.Length
      requires FirstReady(tasks[..], cur, 0) == Some(d)
      modifies this`cur
      ensures Valid()
      ensures View() == old(View()).(cur := (old(cur) + d) % tasks.Length)
      ensures Dispatched(View()) == Some(cur) == Dispatched(old(View()))
    {
      ModBelowTwice(cur + d, tasks.Length);
      cur := (cur + d) % tasks.Length;
      DispatchChoice(View());
    }

    /** The cycle charged when no thread is ready. */
    method IdleCycle()
      requires Valid() && tasks.Length > 0 && Dispatched(View()) == None
      modifies this, tasks
      ensures Valid()
      ensures View() == Next(cfg, old(View()))
    {
      cycles := cycles + 1;
      DecrementAll(tasks);
    }

    /** Fetches and executes one instruction of thread `cur`, then moves `cur` on by one. */
    method Dispatch()
      requires Valid() && tasks.Length > 0 && Dispatched(View()) == Some(cur)
      modifies this, tasks
      ensures Valid()
      ensures View() == Next(cfg, old(View()))
    {
      var t := tasks[cur];
      var ins := cfg.fetch(t.pc, cur);
      cycles := cycles + 1;
      insts := insts + 1;
      var (t', mem') := Exec(t, ins, mem, cfg);
      tasks[cur] := t'.(pc := t.pc + 1);
      mem := mem';
      DecrementAll(tasks);
      cur := (cur + 1) % tasks.Length;
    }

    /** The loop of CORE_FinegrainedMT, cut off after `fuel` iterations. */
    method Run(fuel: nat) returns (finished: bool)
      requires Valid()
      modifies this, tasks
      ensures Valid()
      ensures (View(), finished) == Simulate(cfg, old(View()), fuel)
    {
      var f := fuel;
      while true
        invariant Valid()
        invariant Simulate(cfg, View(), f) == Simulate(cfg, old(View()), fuel)
        decreases f
      {
        var done := AllDone(tasks);
        if done {
          return true;
        }
        if f == 0 {
          return false;
        }
        Step();
        f := f - 1;
      }
    }

    /** CORE_FinegrainedMT_CTX: the register file of thread `tid` into row `tid` of `ctx`. */
    method Ctx(ctx: array2<int>, tid: nat)
      requires Valid() && tid < tasks.Length
      requires tid < ctx.Length0 && ctx.Length1 == REGS_COUNT
      modifies ctx
      ensures forall r :: 0 <= r < REGS_COUNT ==> ctx[tid, r] == tasks[tid].regs[r]
      ensures forall i, r :: 0 <= i < ctx.Length0 && 0 <= r < ctx.Length1 && i != tid ==>
        ctx[i, r] == old(ctx[i, r])
    {
      CopyContext(ctx, tid, tasks[tid].regs);
    }
  }
}
