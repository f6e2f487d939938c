/**
 * Per-thread state shared by both scheduling policies: the Task record,
 * the once-per-cycle delay tick (decrement_all), the ready-thread scans,
 * the opcode interpreter and the register-context copy.
 */
module Threads {
  import opened Isa

  datatype Option<T> = None | Some(value: T)

  /** One hardware thread: pending delay, halted flag, pc and register file. */
  datatype Task = Task(delay: nat, halted: bool, pc: nat, regs: seq<int>)

  const ZeroRegs: seq<int> := seq(REGS_COUNT, _ => 0)

  /** The record every thread starts a run with. */
  const InitialTask: Task := Task(0, false, 0, ZeroRegs)

  predicate Ready(t: Task) {
    !t.halted && t.delay == 0
  }

  predicate AllHalted(ts: seq<Task>) {
    forall i :: 0 <= i < |ts| ==> ts[i].halted
  }

  predicate AllReady(ts: seq<Task>) {
    forall i :: 0 <= i < |ts| ==> Ready(ts[i])
  }

  predicate WfTasks(ts: seq<Task>) {
    forall i :: 0 <= i < |ts| ==> |ts[i].regs| == REGS_COUNT
  }

  /** Reduction modulo n of a value below 2n. */
  lemma ModBelowTwice(x: nat, n: nat)
    requires 0 < n && x < 2 * n
    ensures x % n == if x < n then x else x - n
  {
    if x < n {
      assert x % n == x;
    } else {
      assert x % n == x - n;
    }
  }

  /** The thread at cyclic offset `d` from `cur` is ready. */
  predicate ReadyAt(ts: seq<Task>, cur: nat, d: nat)
    requires |ts| > 0
  {
    Ready(ts[(cur + d) % |ts|])
  }

  // ---------------------------------------------------------------------
  // decrement_all

  /** One cycle passes for one thread: a positive delay loses one unit. */
  function Tick(t: Task): (r: Task)
    ensures r.halted == t.halted && r.pc == t.pc && r.regs == t.regs
    ensures r.delay <= t.delay
    ensures Ready(r) <==> !t.halted && t.delay <= 1
  {
    t.(delay := if t.delay > 0 then t.delay - 1 else t.delay)
  }

  /** decrement_all as a function: every thread one cycle closer to ready. */
  function Ticked(ts: seq<Task>): (r: seq<Task>)
    ensures |r| == |ts|
    ensures forall i :: 0 <= i < |ts| ==> r[i].halted == ts[i].halted && r[i].delay <= ts[i].delay
    ensures forall i :: 0 <= i < |ts| ==> (Ready(r[i]) <==> !ts[i].halted && ts[i].delay <= 1)
  {
    seq(|ts|, i requires 0 <= i < |ts| => Tick(ts[i]))
  }

  /** `k` cycles pass for every thread; only the delays move. */
  function TickedN(ts: seq<Task>, k: nat): (r: seq<Task>)
    ensures |r| == |ts|
    ensures forall i :: 0 <= i < |ts| ==>
      r[i].halted == ts[i].halted && r[i].pc == ts[i].pc && r[i].regs == ts[i].regs
  {
    if k == 0 then ts else Ticked(TickedN(ts, k - 1))
  }

  /** decrement_all: a positive delay drops by exactly one, zero stays zero, nothing else moves. */
  lemma TickedEffect(ts: seq<Task>, i: nat)
    requires i < |ts|
    ensures ts[i].delay > 0 ==> Ticked(ts)[i].delay == ts[i].delay - 1
    ensures ts[i].delay == 0 ==> Ticked(ts)[i].delay == 0
    ensures Ticked(ts)[i].halted == ts[i].halted
    ensures Ticked(ts)[i].pc == ts[i].pc
    ensures Ticked(ts)[i].regs == ts[i].regs
  {
  }

  /** After `k` ticks a delay has dropped by `k`, saturating at zero. */
  lemma {:induction false} TickedNDelay(ts: seq<Task>, k: nat, i: nat)
    requires i < |ts|
    ensures TickedN(ts, k)[i].delay == if ts[i].delay >= k then ts[i].delay - k else 0
  {
    if k > 0 {
      TickedNDelay(ts, k - 1, i);
    }
  }

  /** A ready thread stays ready however many cycles pass without it running. */
  lemma TickedNKeepsReady(ts: seq<Task>, k: nat, i: nat)
    requires i < |ts| && Ready(ts[i])
    ensures Ready(TickedN(ts, k)[i])
  {
    TickedNDelay(ts, k, i);
  }

  /** decrement_all on the task array. */
  method DecrementAll(arr: array<Task>)
    modifies arr
    ensures arr[..] == Ticked(old(arr[..]))
  {
    for i := 0 to arr.Length
      invariant forall j :: 0 <= j < i ==> arr[j] == Tick(old(arr[j]))
      invariant forall j :: i <= j < arr.Length ==> arr[j] == old(arr[j])
    {
      if arr[i].delay > 0 {
        arr[i] := arr[i].(delay := arr[i].delay - 1);
      }
    }
  }

  // ---------------------------------------------------------------------
  // Scans

  /** The all_done test at the head of both scheduler loops. */
  method AllDone(arr: array<Task>) returns (done: bool)
    ensures done == AllHalted(arr[..])
  {
    for i := 0 to arr.Length
      invariant forall j :: 0 <= j < i ==> arr[j].halted
    {
      if !arr[i].halted {
        return false;
      }
    }
    return true;
  }

  /** The smallest cyclic offset in `d..|ts|-1` from `cur` at which a thread is ready. */
  function FirstReady(ts: seq<Task>, cur: nat, d: nat): (r: Option<nat>)
    requires |ts| > 0 && d <= |ts|
    ensures r.Some? ==> d <= r.value < |ts| && ReadyAt(ts, cur, r.value)
    ensures r.Some? ==> forall e :: d <= e < r.value ==> !ReadyAt(ts, cur, e)
    ensures r.None? <==> forall e :: d <= e < |ts| ==> !ReadyAt(ts, cur, e)
    decreases |ts| - d
  {
    if d == |ts| then None
    else if ReadyAt(ts, cur, d) then Some(d)
    else FirstReady(ts, cur, d + 1)
  }

  /**
   * The scan `for (d = from; d < n; d++)` over `(cur + d) % n` that both
   * schedulers use: `from` is 1 for the blocked switch search and 0 for
   * the fine-grained pick.
   */
  method ScanReady(arr: array<Task>, cur: nat, from: nat) returns (found: bool, d: nat)
    requires 0 < arr.Length && from <= arr.Length
    ensures found <==> exists e :: from <= e < arr.Length && ReadyAt(arr[..], cur, e)
    ensures found ==> from <= d < arr.Length && ReadyAt(arr[..], cur, d)
    ensures found ==> forall e :: from <= e < d ==> !ReadyAt(arr[..], cur, e)
    ensures found ==> FirstReady(arr[..], cur, from) == Some(d)
    ensures !found ==> FirstReady(arr[..], cur, from) == None
  {
    d := from;
    while d < arr.Length
      invariant from <= d <= arr.Length
      invariant forall e :: from <= e < d ==> !ReadyAt(arr[..], cur, e)
    {
      var nxt := (cur + d) % arr.Length;
      if !arr[nxt].halted && arr[nxt].delay == 0 {
        assert ReadyAt(arr[..], cur, d);
        return true, d;
      }
      d := d + 1;
    }
    return false, d;
  }

  // ---------------------------------------------------------------------
  // The opcode interpreter

  /** The second operand of LOAD and STORE: an immediate or a register. */
  function Offset(t: Task, ins: Instruction): int
    requires |t.regs| == REGS_COUNT && (ins.isSrc2Imm || IsReg(ins.src2))
  {
    if ins.isSrc2Imm then ins.src2 else t.regs[ins.src2]
  }

  /** The opcodes that write register `dst`. */
  predicate WritesDst(op: Opcode) {
    op.ADD? || op.SUB? || op.ADDI? || op.SUBI? || op.LOAD?
  }

  /**
   * Executes one instruction for thread `t`: its effect on registers,
   * delay, the halted flag and data memory. The pc is the scheduler's
   * business, because the two policies advance it differently.
   */
  function Exec(t: Task, ins: Instruction, mem: Memory, c: Config): (r: (Task, Memory))
    requires |t.regs| == REGS_COUNT && WellFormed(ins)
    ensures r.0.pc == t.pc && |r.0.regs| == REGS_COUNT
    ensures r.0.halted <==> t.halted || ins.op.HALT?
    ensures r.0.delay == if ins.op.LOAD? then c.loadLat + 1
                         else if ins.op.STORE? then c.storeLat + 1
                         else t.delay
    ensures forall i :: 0 <= i < REGS_COUNT && (i != ins.dst || !WritesDst(ins.op)) ==>
      r.0.regs[i] == t.regs[i]
    ensures !ins.op.STORE? ==> r.1 == mem
  {
    match ins.op
    case ADD => (t.(regs := t.regs[ins.dst := t.regs[ins.src1] + t.regs[ins.src2]]), mem)
    case SUB => (t.(regs := t.regs[ins.dst := t.regs[ins.src1] - t.regs[ins.src2]]), mem)
    case ADDI => (t.(regs := t.regs[ins.dst := t.regs[ins.src1] + ins.src2]), mem)
    case SUBI => (t.(regs := t.regs[ins.dst := t.regs[ins.src1] - ins.src2]), mem)
    case LOAD =>
      var addr := t.regs[ins.src1] + Offset(t, ins);
      (t.(regs := t.regs[ins.dst := Read(mem, addr)], delay := c.loadLat + 1), mem)
    case STORE =>
      var addr := t.regs[ins.dst] + Offset(t, ins);
      (t.(delay := c.storeLat + 1), mem[addr := t.regs[ins.src1]])
    case HALT => (t.(halted := true), mem)
    case _ => (t, mem)
  }

  /** The value each register-writing opcode leaves in `dst`, and where STORE writes. */
  lemma ExecResult(t: Task, ins: Instruction, mem: Memory, c: Config)
    requires |t.regs| == REGS_COUNT && WellFormed(ins)
    ensures var r := Exec(t, ins, mem, c);
      && (ins.op.ADD? ==> r.0.regs[ins.dst] == t.regs[ins.src1] + t.regs[ins.src2])
      && (ins.op.SUB? ==> r.0.regs[ins.dst] == t.regs[ins.src1] - t.regs[ins.src2])
      && (ins.op.ADDI? ==> r.0.regs[ins.dst] == t.regs[ins.src1] + ins.src2)
      && (ins.op.SUBI? ==> r.0.regs[ins.dst] == t.regs[ins.src1] - ins.src2)
      && (ins.op.LOAD? ==> r.0.regs[ins.dst] == Read(mem, t.regs[ins.src1] + Offset(t, ins)))
      && (ins.op.STORE? ==> r.1 == mem[t.regs[ins.dst] + Offset(t, ins) := t.regs[ins.src1]])
  {
  }

  // ---------------------------------------------------------------------
  // Register snapshot

  /** CORE_*_CTX: copies `regs` into row `tid` of `ctx`, leaving every other row alone. */
  method CopyContext(ctx: array2<int>, tid: nat, regs: seq<int>)
    requires tid < ctx.Length0 && ctx.Length1 == REGS_COUNT && |regs| == REGS_COUNT
    modifies ctx
    ensures forall r :: 0 <= r < REGS_COUNT ==> ctx[tid, r] == regs[r]
    ensures forall i, r :: 0 <= i < ctx.Length0 && 0 <= r < ctx.Length1 && i != tid ==>
      ctx[i, r] == old(ctx[i, r])
  {
    for r := 0 to REGS_COUNT
      invariant forall q :: 0 <= q < r ==> ctx[tid, q] == regs[q]
      invariant forall i, q :: 0 <= i < ctx.Length0 && 0 <= q < ctx.Length1 && (i != tid || q >= r) ==>
        ctx[i, q] == old(ctx[i, q])
    {
      ctx[tid, r] := regs[r];
    }
  }
}
