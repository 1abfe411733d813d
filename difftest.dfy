/**
 * npc's difference-test register check (isa/riscv32/difftest/dut.c): after each
 * step the reference emulator's architectural state is compared with npc's. The
 * verdict is "equal" exactly when every general-purpose register and the pc
 * agree; on a mismatch a diff table with one flagged row per register, then one
 * for the pc, is printed.
 */
module Difftest {
  import opened Machine

  /** The part of CPU_state that is compared: the GPR file and the pc. */
  datatype CpuState = CpuState(gpr: seq<Word>, pc: Word)

  /** One row of the diff table; the text itself is not modelled. */
  datatype Row = Row(refVal: Word, npcVal: Word, mismatch: bool)

  /** The table print_diff_table prints, headed by the pc of the failing step. */
  datatype DiffReport = DiffReport(failedAt: Word, rows: seq<Row>)

  /** num_regs: 16 under the RVE configuration, 32 otherwise. */
  function NumRegs(rve: bool): (n: nat)
    ensures n == 16 || n == 32
  {
    if rve then 16 else 32
  }

  /** A CPU_state of the configured width. */
  predicate Shaped(s: CpuState, rve: bool)
  {
    |s.gpr| == NumRegs(rve)
  }

  /** The reference definition of agreement: every compared register and the pc are equal. */
  predicate RegsMatch(ref: CpuState, cpu: CpuState, rve: bool)
    requires Shaped(ref, rve) && Shaped(cpu, rve)
  {
    (forall i :: 0 <= i < NumRegs(rve) ==> ref.gpr[i] == cpu.gpr[i]) && ref.pc == cpu.pc
  }

  /** print_reg_row's is_diff flag. */
  function RegRow(refVal: Word, npcVal: Word): (r: Row)
    ensures r.refVal == refVal && r.npcVal == npcVal
    ensures r.mismatch <==> refVal != npcVal
  {
    Row(refVal, npcVal, refVal != npcVal)
  }

  /** print_diff_table's rows: registers 0 .. num_regs-1, then the pc. */
  function DiffRows(ref: CpuState, cpu: CpuState, rve: bool): (rows: seq<Row>)
    requires Shaped(ref, rve) && Shaped(cpu, rve)
    ensures |rows| == NumRegs(rve) + 1
  {
    seq(NumRegs(rve), i requires 0 <= i < NumRegs(rve) => RegRow(ref.gpr[i], cpu.gpr[i]))
      + [RegRow(ref.pc, cpu.pc)]
  }

  /** A table row is flagged MISMATCH exactly when its two values differ. */
  lemma RowFlaggedIffDiffers(ref: CpuState, cpu: CpuState, rve: bool, k: int)
    requires Shaped(ref, rve) && Shaped(cpu, rve) && 0 <= k <= NumRegs(rve)
    ensures k < NumRegs(rve) ==> (DiffRows(ref, cpu, rve)[k].mismatch <==> ref.gpr[k] != cpu.gpr[k])
    ensures k == NumRegs(rve) ==> (DiffRows(ref, cpu, rve)[k].mismatch <==> ref.pc != cpu.pc)
  {
  }

  /** The table shows some MISMATCH row exactly when the states disagree. */
  lemma SomeRowFlaggedIffMismatch(ref: CpuState, cpu: CpuState, rve: bool)
    requires Shaped(ref, rve) && Shaped(cpu, rve)
    ensures (exists k :: 0 <= k < |DiffRows(ref, cpu, rve)| && DiffRows(ref, cpu, rve)[k].mismatch)
            <==> !RegsMatch(ref, cpu, rve)
  {
    var rows := DiffRows(ref, cpu, rve);
    var n := NumRegs(rve);
    if !RegsMatch(ref, cpu, rve) {
      if ref.pc != cpu.pc {
        assert rows[n].mismatch;
      } else {
        var i :| 0 <= i < n && ref.gpr[i] != cpu.gpr[i];
        assert rows[i].mismatch;
      }
    } else {
      forall k | 0 <= k < |rows|
        ensures !rows[k].mismatch
      {
        if k < n {
          assert rows[k] == RegRow(ref.gpr[k], cpu.gpr[k]);
        }
      }
    }
  }

  /**
   * isa_difftest_checkregs: scan the GPRs, stopping at the first difference,
   * then compare the pc; print the table iff something differs. The state is
   * only read.
   */
  method CheckRegs(ref: CpuState, cpu: CpuState, pc: Word, rve: bool)
    returns (allMatch: bool, report: Option<DiffReport>)
    requires Shaped(ref, rve) && Shaped(cpu, rve)
    ensures allMatch <==> RegsMatch(ref, cpu, rve)
    ensures report.Some? <==> !allMatch
    ensures report.Some? ==> report.value == DiffReport(pc, DiffRows(ref, cpu, rve))
  {
    allMatch := true;
    var numRegs := NumRegs(rve);
    var i := 0;
    while i < numRegs
      invariant 0 <= i <= numRegs
      invariant allMatch && forall j :: 0 <= j < i ==> ref.gpr[j] == cpu.gpr[j]
    {
      if ref.gpr[i] != cpu.gpr[i] {
        allMatch := false;
        break;
      }
      i := i + 1;
    }
    if ref.pc != cpu.pc {
      allMatch := false;
    }
    if !allMatch {
      report := Some(DiffReport(pc, DiffRows(ref, cpu, rve)));
    } else {
      report := None;
    }
  }
}
