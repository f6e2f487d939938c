/**
 * The instruction set the scheduling core interprets, and the collaborator
 * that supplies the run configuration, the instruction stream and data memory.
 */
module Isa {

  /** Size of every thread's register file (REGS_COUNT of the simulator headers). */
  const REGS_COUNT: nat := 8

  /** The closed set of opcodes; `Unknown` stands for any other encoding. */
  datatype Opcode = NOP | ADD | SUB | ADDI | SUBI | LOAD | STORE | HALT | Unknown(code: int)

  /**
   * A decoded instruction: `src2` is a register index or an immediate,
   * and `isSrc2Imm` says which for LOAD and STORE.
   */
  datatype Instruction = Instruction(op: Opcode, dst: int, src1: int, src2: int, isSrc2Imm: bool)

  predicate IsReg(i: int) {
    0 <= i < REGS_COUNT
  }

  /** Every register index the instruction reads or writes is in range. */
  predicate WellFormed(ins: Instruction) {
    match ins.op
    case ADD | SUB => IsReg(ins.dst) && IsReg(ins.src1) && IsReg(ins.src2)
    case ADDI | SUBI => IsReg(ins.dst) && IsReg(ins.src1)
    case LOAD | STORE => IsReg(ins.dst) && IsReg(ins.src1) && (ins.isSrc2Imm || IsReg(ins.src2))
    case _ => true
  }

  /** Data memory of the collaborator: an address never written reads as 0. */
  type Memory = map<int, int>

  function Read(mem: Memory, addr: int): int {
    if addr in mem then mem[addr] else 0
  }

  /**
   * What the collaborator supplies for one run: the thread count, the load
   * and store latencies, the switch penalty (blocked policy only) and the
   * instruction at a given (pc, thread id).
   */
  datatype Config = Config(
    threads: nat,
    loadLat: nat,
    storeLat: nat,
    switchCycles: nat,
    fetch: (nat, nat) -> Instruction)

  /** The instruction stream never names a register out of range. */
  ghost predicate ValidConfig(c: Config) {
    forall pc: nat, tid: nat :: WellFormed(c.fetch(pc, tid))
  }
}
