/**
 * Run statistics: cycles per instruction, CORE_BlockedMT_CPI and
 * CORE_FinegrainedMT_CPI, as an exact ratio of the two counters.
 */
module Stats {

  /** Cycles per instruction; 0 when no instruction was executed. */
  function Cpi(cycles: nat, insts: nat): (r: real)
    ensures insts == 0 ==> r == 0.0
    ensures insts > 0 ==> r * (insts as real) == cycles as real
  {
    if insts == 0 then 0.0 else cycles as real / insts as real
  }

  /** A run that executed something and never counted more instructions than cycles has CPI >= 1. */
  lemma CpiAtLeastOne(cycles: nat, insts: nat)
    requires 0 < insts <= cycles
    ensures Cpi(cycles, insts) >= 1.0
  {
    var r := Cpi(cycles, insts);
    if r < 1.0 {
      assert r * (insts as real) < insts as real;
    }
  }
}
