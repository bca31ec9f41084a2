/** The guest state of cpu_core.h: the register file, coprocessor 0, the
    program-counter pair, and the one-instruction load-delay pipeline. */
module CpuState {
  import opened Opcode

  /** 32 registers of 32 bits (`uint32_t regs[32]`, `uint32_t cop0[32]`). */
  type RegFile = s: seq<Word> | |s| == 32 witness seq(32, _ => 0)

  type RegIndex = i: nat | i < 32

  datatype CPUState = CPUState(regs: RegFile, cop0: RegFile, pc: Word, nextPc: Word)

  /** A pending register write. The source declares `reg` as int; every
      value it ever holds is a 5-bit rt field or 0. */
  datatype LoadDelaySlot = LoadDelaySlot(reg: RegIndex, data: Word)

  const EmptySlot := LoadDelaySlot(0, 0)

  /** The three globals the generated code works on: g_state,
      load_delay_slot (the active slot) and next_load_delay (the staged one). */
  datatype Guest = Guest(state: CPUState, loadDelay: LoadDelaySlot, nextLoad: LoadDelaySlot)

  /** HandleLoadDelay: write the active slot into the register file, promote
      the staged slot, clear the staged slot. */
  function HandleLoadDelay(g: Guest): (r: Guest)
    ensures r.state.regs[g.loadDelay.reg] == g.loadDelay.data
    ensures forall i :: 0 <= i < 32 && i != g.loadDelay.reg ==> r.state.regs[i] == g.state.regs[i]
    ensures r.state.cop0 == g.state.cop0 && r.state.pc == g.state.pc && r.state.nextPc == g.state.nextPc
    ensures r.loadDelay == g.nextLoad && r.nextLoad == EmptySlot
  {
    var s := g.state;
    Guest(s.(regs := s.regs[g.loadDelay.reg := g.loadDelay.data]), g.nextLoad, EmptySlot)
  }

  /** With nothing pending, the handler's only effect is regs[0] := 0. */
  lemma HandleLoadDelayIdle(g: Guest)
    requires g.loadDelay == EmptySlot && g.nextLoad == EmptySlot
    ensures HandleLoadDelay(g) == g.(state := g.state.(regs := g.state.regs[0 := 0]))
  {
  }

  /** A value staged in next_load_delay reaches the register file on the
      second handler call, not the first. */
  lemma StagedWriteLandsOnSecondHandler(g: Guest)
    requires g.loadDelay.reg != g.nextLoad.reg
    ensures HandleLoadDelay(g).state.regs[g.nextLoad.reg] == g.state.regs[g.nextLoad.reg]
    ensures HandleLoadDelay(HandleLoadDelay(g)).state.regs[g.nextLoad.reg] == g.nextLoad.data
  {
  }

  /** The ABI register names, in register order. */
  const AbiNames: seq<string> := [
    "$zero", "$at", "$v0", "$v1", "$a0", "$a1", "$a2", "$a3",
    "$t0", "$t1", "$t2", "$t3", "$t4", "$t5", "$t6", "$t7",
    "$s0", "$s1", "$s2", "$s3", "$s4", "$s5", "$s6", "$s7",
    "$t8", "$t9", "$k0", "$k1", "$gp", "$sp", "$fp", "$ra"]

  /** GetRegName: the ABI name of registers 0..31, "$NA" for anything else. */
  function GetRegName(reg: int): (r: string)
    ensures 0 <= reg < 32 ==> r == AbiNames[reg]
    ensures r == "$NA" <==> !(0 <= reg < 32)
  {
    if 0 <= reg < 32 then AbiNames[reg] else "$NA"
  }
}
