/** What the code emitted by CompileBlock does to the guest state, per
    instruction: the program-counter advance of EmitIncPC, the effect of the
    opcode's emitter, and the call to HandleLoadDelay. The x86 encoding is
    not modelled, only its effect on the globals. */
module Emit {
  import opened Failure
  import opened Opcode
  import opened CpuState
  import Bus

  /** The memory calls the emitted code makes: Bus::Read8 / Bus::Read32
      (load) and Bus::Write8 / Write16 / Write32 (store). Their bodies are not
      part of this model, so they are parameters; a failure is the callee's
      fatal path. */
  datatype Port = Port(
    load: (Bus.Width, Word) -> Result<Word>,
    store: (Bus.Width, Word, Word) -> Outcome)

  /** The emitted sw calls Bus::Write32, whose body is part of this model:
      the port's 32-bit store is that function. */
  ghost predicate StoresWordThroughBus(port: Port)
  {
    forall a, d :: port.store(Bus.Full, a, d) == Bus.Write32(a, d)
  }

  /** (int32_t)(int16_t)x. */
  function Sext16(x: bv16): Word
  {
    var y := x as Word;
    if y & 0x8000 == 0 then y else y | 0xFFFF_0000
  }

  /** (int32_t)(int16_t)(imm << 2): the shift is truncated to 16 bits before
      the sign extension. */
  function BranchOffset(imm: bv16): Word
  {
    Sext16(imm << 2)
  }

  /** pc + (int32_t)(int16_t)(imm << 2), where a taken beq/bne puts pc. */
  function BranchTarget(pc: Word, imm: bv16): Word
  {
    pc + BranchOffset(imm)
  }

  /** (next_pc & 0xf0000000) | (target << 2). */
  function JumpTarget(nextPc: Word, target: bv26): Word
  {
    (nextPc & 0xF000_0000) | ((target as Word) << 2)
  }

  /** Bit 16 of cop0 register 12: the cache is isolated and stores are
      skipped. */
  predicate CacheIsolated(s: CPUState)
  {
    s.cop0[12] & 0x1_0000 != 0
  }

  /** base + (int32_t)(int16_t)imm. */
  function Displace(base: Word, imm: bv16): Word
  {
    base + Sext16(imm)
  }

  /** regs[rs] + (int32_t)(int16_t)imm, the address of a load or store. */
  function EffectiveAddress(s: CPUState, f: Fields): Word
  {
    Displace(s.regs[f.rs as int], f.imm)
  }

  /** EmitIncPC: pc := next_pc; next_pc += 4. */
  function IncPC(s: CPUState): CPUState
  {
    s.(pc := s.nextPc, nextPc := s.nextPc + 4)
  }

  /** EmitIncPC leaves the registers and cop0, hence the address of a load
      or store and the isolation bit, as they were. */
  lemma IncPCKeepsOperands(s: CPUState, f: Fields)
    ensures IncPC(s).regs == s.regs && IncPC(s).cop0 == s.cop0
    ensures EffectiveAddress(IncPC(s), f) == EffectiveAddress(s, f)
    ensures CacheIsolated(IncPC(s)) == CacheIsolated(s)
  {
  }

  function SetReg(s: CPUState, i: RegIndex, v: Word): CPUState
  {
    s.(regs := s.regs[i := v])
  }

  predicate IsLoad(op: Op) { op == Lb || op == Lw }
  predicate IsStore(op: Op) { op == Sb || op == Sh || op == Sw }

  function StoreWidth(op: Op): Bus.Width
    requires IsStore(op)
  {
    if op == Sb then Bus.Byte else if op == Sh then Bus.Half else Bus.Full
  }

  /** lb calls Read8, lw calls Read32. */
  function LoadWidth(op: Op): Bus.Width
    requires IsLoad(op)
  {
    if op == Lb then Bus.Byte else Bus.Full
  }

  predicate IsAlu(op: Op) { op in {Addu, Or, Sltu, Addi, Addiu, Andi, Ori, Lui} }
  predicate IsJump(op: Op) { op in {J, Jal, Jr} }
  predicate IsBranch(op: Op) { op in {Beq, Bne} }

  /** The value an ALU emitter writes, and the register it writes it to. */
  function AluResult(op: Op, s: CPUState, f: Fields): Word
    requires IsAlu(op)
  {
    var rs := s.regs[f.rs as int];
    var rt := s.regs[f.rt as int];
    match op
    case Addu => rs + rt
    case Or => rs | rt
    case Sltu => if rs < rt then 1 else 0
    case Addi | Addiu => rs + Sext16(f.imm)
    case Andi => rs & (f.imm as Word)
    case Ori => rs | (f.imm as Word)
    case Lui => (f.imm as Word) << 16
  }

  /** R-form ALU instructions write rd, I-form ones write rt. */
  function AluDest(op: Op, f: Fields): RegIndex
    requires IsAlu(op)
  {
    if op in {Addu, Or, Sltu} then f.rd as int else f.rt as int
  }

  /** EmitJ / EmitJAL / EmitJR: the new next_pc (jal also links r31). */
  function JumpDest(op: Op, s: CPUState, f: Fields): Word
    requires IsJump(op)
  {
    if op == Jr then s.regs[f.rs as int] else JumpTarget(s.nextPc, f.target)
  }

  /** EmitBEQ / EmitBNE: whether the offset is added to pc. */
  predicate BranchTaken(op: Op, s: CPUState, f: Fields)
    requires IsBranch(op)
  {
    (s.regs[f.rs as int] == s.regs[f.rt as int]) == (op == Beq)
  }

  /** The loads and stores: the only emitters that call out, hence the only
      ones that can fail. A load reads regs[rs] + sext(imm) at its width and
      stages (rt, value); a store hands regs[rt] to the bus at that address
      unless the cache is isolated; a failing call is the result. */
  function ExecMemory(g: Guest, op: Op, f: Fields, port: Port): (r: Result<Guest>)
    requires IsLoad(op) || IsStore(op)
    ensures IsLoad(op) ==> (r.Ok? <==> port.load(LoadWidth(op), EffectiveAddress(g.state, f)).Ok?)
    ensures IsLoad(op) && r.Ok? ==>
      r.value == g.(nextLoad := LoadDelaySlot(f.rt as int, port.load(LoadWidth(op), EffectiveAddress(g.state, f)).value))
    ensures IsLoad(op) && r.Err? ==> port.load(LoadWidth(op), EffectiveAddress(g.state, f)) == Err(r.error)
    ensures IsStore(op) && CacheIsolated(g.state) ==> r == Ok(g)
    ensures IsStore(op) && !CacheIsolated(g.state) ==>
      (r.Ok? <==> port.store(StoreWidth(op), EffectiveAddress(g.state, f), g.state.regs[f.rt as int]).Pass?)
    ensures IsStore(op) && r.Ok? ==> r.value == g
    ensures IsStore(op) && r.Err? ==>
      port.store(StoreWidth(op), EffectiveAddress(g.state, f), g.state.regs[f.rt as int]) == Fail(r.error)
  {
    var s := g.state;
    if IsLoad(op) then
      var v :- port.load(LoadWidth(op), EffectiveAddress(s, f));
      Ok(g.(nextLoad := LoadDelaySlot(f.rt as int, v)))
    else if CacheIsolated(s) then Ok(g)
    else
      match port.store(StoreWidth(op), EffectiveAddress(s, f), s.regs[f.rt as int])
      case Pass => Ok(g)
      case Fail(e) => Err(e)
  }

  /** The effect of one emitter on the globals (the inner switch of
      CompileBlock), given the decoded operation and fields. */
  function ExecOp(g: Guest, op: Op, f: Fields, port: Port): Result<Guest>
  {
    var s := g.state;
    if op == Nop then Ok(g)
    else if IsAlu(op) then Ok(g.(state := SetReg(s, AluDest(op, f), AluResult(op, s, f))))
    else if op == Jal then Ok(g.(state := SetReg(s, 31, s.nextPc).(nextPc := JumpDest(op, s, f))))
    else if IsJump(op) then Ok(g.(state := s.(nextPc := JumpDest(op, s, f))))
    else if IsBranch(op) then
      Ok(if BranchTaken(op, s, f) then g.(state := s.(pc := BranchTarget(s.pc, f.imm))) else g)
    else if op == Mtc0 then Ok(g.(state := s.(cop0 := s.cop0[f.rd as int := s.regs[f.rt as int]])))
    else ExecMemory(g, op, f, port)
  }

  /** Decode, then run the emitter; an unknown encoding is fatal. Each
      emitter leaves the active load slot alone, touches pc, next_pc, cop0
      and the staged slot only where its table entry says, and only loads
      and stores can fail. */
  function Exec(g: Guest, w: Word, port: Port): (r: Result<Guest>)
    ensures !Supported(w) ==> r == Err(Undecodable(w))
    ensures Supported(w) && r.Err? ==> IsLoad(Classify(w).value) || IsStore(Classify(w).value)
    ensures r.Ok? ==> r.value.loadDelay == g.loadDelay
    ensures r.Ok? && r.value.state.pc != g.state.pc ==> IsBranch(Classify(w).value)
    ensures r.Ok? && r.value.state.nextPc != g.state.nextPc ==> IsJump(Classify(w).value)
    ensures r.Ok? && r.value.state.cop0 != g.state.cop0 ==> Classify(w) == Some(Mtc0)
    ensures r.Ok? && r.value.nextLoad != g.nextLoad ==> IsLoad(Classify(w).value)
  {
    match Classify(w)
    case None => Err(Undecodable(w))
    case Some(op) => ExecOp(g, op, Decode(w), port)
  }

  /** One guest instruction of a compiled block: EmitIncPC, the emitter,
      EmitHandleLoadDelay. */
  function Step(g: Guest, w: Word, port: Port): Result<Guest>
  {
    var g' :- Exec(g.(state := IncPC(g.state)), w, port);
    Ok(HandleLoadDelay(g'))
  }

  /** Calling a compiled block: its instructions in order, stopping at the
      first fatal call. */
  function RunBlock(g: Guest, code: seq<Word>, port: Port): Result<Guest>
    decreases |code|
  {
    if code == [] then Ok(g)
    else
      var g' :- Step(g, code[0], port);
      RunBlock(g', code[1..], port)
  }

  /** (int16_t) sign extension keeps the low half and copies bit 15 into
      the high half. */
  lemma Sext16Bits(x: bv16)
    ensures Sext16(x) & 0xFFFF == x as Word
    ensures Sext16(x) >> 16 == if x & 0x8000 == 0 then 0 else 0xFFFF
  {
    Widen(x);
    var y := x as Word;
    if y & 0x8000 == 0 {
      PositiveHalves(y);
    } else {
      NegativeHalves(y);
    }
  }

  lemma Widen(x: bv16)
    ensures (x as Word) >> 16 == 0
    ensures (x as Word) & 0x8000 == 0 <==> x & 0x8000 == 0
  {
  }

  lemma PositiveHalves(y: Word)
    requires y >> 16 == 0
    ensures y & 0xFFFF == y && y >> 16 == 0
  {
  }

  lemma NegativeHalves(y: Word)
    requires y >> 16 == 0
    ensures (y | 0xFFFF_0000) & 0xFFFF == y && (y | 0xFFFF_0000) >> 16 == 0xFFFF
  {
  }

  /** A jump stays in the 256 MiB segment of next_pc and lands on a word
      boundary. */
  lemma JumpTargetInSegment(nextPc: Word, target: bv26)
    ensures JumpTarget(nextPc, target) >> 28 == nextPc >> 28
    ensures JumpTarget(nextPc, target) & 3 == 0
    ensures JumpTarget(nextPc, target) & 0x0FFF_FFFF == (target as Word) << 2
  {
  }

  /** Every instruction that is not a control transfer leaves the
      program-counter pair exactly as EmitIncPC set it. */
  lemma StepAdvancesPC(g: Guest, w: Word, port: Port)
    requires Supported(w) && !ModifiesPC(w)
    requires Step(g, w, port).Ok?
    ensures Step(g, w, port).value.state.pc == g.state.nextPc
    ensures Step(g, w, port).value.state.nextPc == g.state.nextPc + 4
  {
    ModifiesPCExactlyControlTransfer(w);
  }

  /** `lui $t0, 0x1234; ori $t0, $t0, 0x0056` builds 0x12340056 in $t0. */
  lemma LuiOriBuildsConstant(g: Guest, port: Port)
    requires g.loadDelay == EmptySlot && g.nextLoad == EmptySlot
    ensures RunBlock(g, [0x3C08_1234, 0x3508_0056], port).Ok?
    ensures RunBlock(g, [0x3C08_1234, 0x3508_0056], port).value.state.regs[8] == 0x1234_0056
  {
    var g1 := LuiStep(g, port);
    var g2 := OriStep(g1, port);
    assert RunBlock(g, [0x3C08_1234, 0x3508_0056], port) == Ok(g2) by {
      assert [0x3C08_1234, 0x3508_0056][1..] == [0x3508_0056];
      assert RunBlock(g2, [], port) == Ok(g2);
    }
  }

  /** The step of an ALU instruction: EmitIncPC, one register write, the
      handler. */
  lemma AluStep(g: Guest, w: Word, port: Port)
    requires Supported(w) && IsAlu(Classify(w).value)
    ensures var op := Classify(w).value;
      var f := Decode(w);
      var s := IncPC(g.state);
      Step(g, w, port) == Ok(HandleLoadDelay(g.(state := SetReg(s, AluDest(op, f), AluResult(op, s, f)))))
  {
  }

  lemma LuiStep(g: Guest, port: Port) returns (g1: Guest)
    requires g.loadDelay == EmptySlot && g.nextLoad == EmptySlot
    ensures Step(g, 0x3C08_1234, port) == Ok(g1)
    ensures g1.state.regs[8] == 0x1234_0000 && g1.loadDelay == EmptySlot && g1.nextLoad == EmptySlot
  {
    var f := Decode(0x3C08_1234);
    assert Classify(0x3C08_1234) == Some(Lui) && f.rt == 8 && f.imm == 0x1234;
    AluStep(g, 0x3C08_1234, port);
    g1 := Step(g, 0x3C08_1234, port).value;
  }

  lemma OriStep(g: Guest, port: Port) returns (g1: Guest)
    requires g.loadDelay == EmptySlot && g.nextLoad == EmptySlot && g.state.regs[8] == 0x1234_0000
    ensures Step(g, 0x3508_0056, port) == Ok(g1)
    ensures g1.state.regs[8] == 0x1234_0056
  {
    var f := Decode(0x3508_0056);
    assert Classify(0x3508_0056) == Some(Ori) && f.rs == 8 && f.rt == 8 && f.imm == 0x56;
    AluStep(g, 0x3508_0056, port);
    g1 := Step(g, 0x3508_0056, port).value;
  }

  /** Load latency: a load staging (R, v) leaves R unchanged for the
      instruction right after it (the delay slot), and the handler of that
      instruction writes v, the value read at regs[rs] + sext(imm). */
  lemma LoadLatency(g: Guest, w: Word, port: Port)
    requires Supported(w) && IsLoad(Classify(w).value)
    requires Step(g, w, port).Ok?
    ensures var g1 := Step(g, w, port).value;
      g1.state.regs == HandleLoadDelay(g).state.regs &&
      g1.loadDelay.reg == Decode(w).rt as int &&
      port.load(LoadWidth(Classify(w).value), EffectiveAddress(g.state, Decode(w))) == Ok(g1.loadDelay.data) &&
      g1.nextLoad == EmptySlot
    ensures var g1 := Step(g, w, port).value;
      HandleLoadDelay(g1).state.regs[g1.loadDelay.reg] == g1.loadDelay.data
  {
    var g1 := g.(state := IncPC(g.state));
    StepUnfold(g, w, port);
    LoadExec(g1, w, port);
    IncPCKeepsOperands(g.state, Decode(w));
  }

  /** A load's emitter stages (rt, v) in next_load_delay, v being what the
      bus returns for regs[rs] + sext(imm), and changes nothing else. */
  lemma LoadExec(g: Guest, w: Word, port: Port)
    requires Supported(w) && IsLoad(Classify(w).value)
    requires Exec(g, w, port).Ok?
    ensures Exec(g, w, port).value == g.(nextLoad := Exec(g, w, port).value.nextLoad)
    ensures Exec(g, w, port).value.nextLoad
         == LoadDelaySlot(Decode(w).rt as int, port.load(LoadWidth(Classify(w).value), EffectiveAddress(g.state, Decode(w))).value)
  {
    MemoryExec(g, w, port);
  }

  /** A load or store word runs its memory emitter. */
  lemma MemoryExec(g: Guest, w: Word, port: Port)
    requires Supported(w) && (IsLoad(Classify(w).value) || IsStore(Classify(w).value))
    ensures Exec(g, w, port) == ExecMemory(g, Classify(w).value, Decode(w), port)
  {
    var op := Classify(w).value;
    assert op != Nop && !IsAlu(op) && !IsJump(op) && !IsBranch(op) && op != Mtc0;
  }

  /** One step is the emitter on the advanced state, then the handler. */
  lemma StepUnfold(g: Guest, w: Word, port: Port)
    ensures Step(g, w, port) ==
      match Exec(g.(state := IncPC(g.state)), w, port)
      case Ok(e) => Ok(HandleLoadDelay(e))
      case Err(x) => Err(x)
  {
  }

  /** The delayed write survives the delay-slot instruction: whatever that
      instruction did to rt, after its step rt holds the value the load read
      from the bus. */
  lemma LoadedValueAfterDelaySlot(g: Guest, w: Word, w2: Word, port: Port)
    requires Supported(w) && IsLoad(Classify(w).value)
    requires Step(g, w, port).Ok?
    requires Step(Step(g, w, port).value, w2, port).Ok?
    ensures var g1 := Step(g, w, port).value;
      port.load(LoadWidth(Classify(w).value), EffectiveAddress(g.state, Decode(w)))
        == Ok(Step(g1, w2, port).value.state.regs[Decode(w).rt as int])
  {
    LoadLatency(g, w, port);
    StepKeepsActiveSlot(Step(g, w, port).value, w2, port);
  }

  /** A load step fails exactly when the bus read fails, with its error. */
  lemma LoadStepFails(g: Guest, w: Word, port: Port)
    requires Supported(w) && IsLoad(Classify(w).value)
    ensures var rd := port.load(LoadWidth(Classify(w).value), EffectiveAddress(g.state, Decode(w)));
      (Step(g, w, port).Err? <==> rd.Err?) && (rd.Err? ==> Step(g, w, port) == Err(rd.error))
  {
    var g1 := g.(state := IncPC(g.state));
    MemoryExec(g1, w, port);
    StepUnfold(g, w, port);
    IncPCKeepsOperands(g.state, Decode(w));
  }

  /** A store step with the cache not isolated hands regs[rt] to the bus at
      regs[rs] + sext(imm): an accepted store is the pc advance and the
      handler only, a refused one is fatal with the bus's error. */
  lemma StoreStep(g: Guest, w: Word, port: Port)
    requires Supported(w) && IsStore(Classify(w).value) && !CacheIsolated(g.state)
    ensures match port.store(StoreWidth(Classify(w).value), EffectiveAddress(g.state, Decode(w)), g.state.regs[Decode(w).rt as int])
      case Pass => Step(g, w, port) == Ok(HandleLoadDelay(g.(state := IncPC(g.state))))
      case Fail(e) => Step(g, w, port) == Err(e)
  {
    var g1 := g.(state := IncPC(g.state));
    MemoryExec(g1, w, port);
    StepUnfold(g, w, port);
    IncPCKeepsOperands(g.state, Decode(w));
  }

  /** When the port's 32-bit store is Bus::Write32, sw with the cache not
      isolated succeeds exactly on the registers write<T> ignores, and is
      otherwise fatal with the unmasked address. */
  lemma SwThroughWrite32(g: Guest, w: Word, port: Port)
    requires Classify(w) == Some(Sw) && !CacheIsolated(g.state)
    requires StoresWordThroughBus(port)
    ensures Step(g, w, port).Ok? <==> Bus.WriteIgnored(EffectiveAddress(g.state, Decode(w)))
    ensures Step(g, w, port).Err? ==> Step(g, w, port).error == UnmappedWrite(EffectiveAddress(g.state, Decode(w)))
  {
    StoreStep(g, w, port);
    Write32Outcome(port, EffectiveAddress(g.state, Decode(w)), g.state.regs[Decode(w).rt as int]);
  }

  /** The 32-bit store of such a port: write<T>'s ignored registers pass,
      any other address is fatal. */
  lemma Write32Outcome(port: Port, a: Word, d: Word)
    requires StoresWordThroughBus(port)
    ensures port.store(StoreWidth(Sw), a, d) == if Bus.WriteIgnored(a) then Pass else Fail(UnmappedWrite(a))
  {
    assert port.store(Bus.Full, a, d) == Bus.Write32(a, d);
  }

  /** Whatever a step's instruction does, its handler writes the active
      slot last. */
  lemma StepKeepsActiveSlot(g: Guest, w: Word, port: Port)
    requires Step(g, w, port).Ok?
    ensures Step(g, w, port).value.state.regs[g.loadDelay.reg] == g.loadDelay.data
  {
    var e := Exec(g.(state := IncPC(g.state)), w, port);
    assert e.Ok? && e.value.loadDelay == g.loadDelay;
  }

  /** A step never reads the pc it starts from: EmitIncPC overwrites it
      first. */
  lemma StepIgnoresPc(g: Guest, x: Word, w: Word, port: Port)
    ensures Step(g.(state := g.state.(pc := x)), w, port) == Step(g, w, port)
  {
    assert IncPC(g.state.(pc := x)) == IncPC(g.state);
  }

  /** A branch step differs from a nop step in pc at most. */
  lemma BranchStepIsNopUpToPc(g: Guest, b: Word, port: Port)
    requires Supported(b) && IsBranch(Classify(b).value)
    ensures Step(g, b, port).Ok? && Step(g, 0, port).Ok?
    ensures Step(g, b, port).value
         == Step(g, 0, port).value.(state := Step(g, 0, port).value.state.(pc := Step(g, b, port).value.state.pc))
  {
    var g1 := g.(state := IncPC(g.state));
    NopStep(g, port);
    BranchStep(g, b, port);
    var p := Step(g, b, port).value.state.pc;
    assert HandleLoadDelay(g1.(state := g1.state.(pc := p)))
        == HandleLoadDelay(g1).(state := HandleLoadDelay(g1).state.(pc := p));
  }

  /** The step of the all-zero word: EmitIncPC and the handler only. */
  lemma NopStep(g: Guest, port: Port)
    ensures Step(g, 0, port) == Ok(HandleLoadDelay(g.(state := IncPC(g.state))))
  {
    assert Classify(0) == Some(Nop);
  }

  /** The step of a branch: EmitIncPC, then pc alone may move. beq is
      taken when rs and rt are equal, bne when they differ; a taken branch
      adds the sign-extended offset to the advanced pc. */
  lemma BranchStep(g: Guest, b: Word, port: Port)
    requires Supported(b) && IsBranch(Classify(b).value)
    ensures Step(g, b, port).Ok?
    ensures var g1 := g.(state := IncPC(g.state));
      Step(g, b, port).value == HandleLoadDelay(g1.(state := g1.state.(pc := Step(g, b, port).value.state.pc)))
    ensures var f := Decode(b);
      Step(g, b, port).value.state.pc ==
        if (g.state.regs[f.rs as int] == g.state.regs[f.rt as int]) == (Classify(b) == Some(Beq))
        then BranchTarget(g.state.nextPc, f.imm)
        else g.state.nextPc
  {
    var op, f := Classify(b).value, Decode(b);
    var g1 := g.(state := IncPC(g.state));
    assert op != Nop && !IsAlu(op) && op != Jal && !IsJump(op);
    assert Exec(g1, b, port) == ExecOp(g1, op, f, port);
  }

  /** beq/bne add their offset to pc, not to next_pc, and the next
      EmitIncPC overwrites pc: a taken or untaken branch followed by its
      delay slot has the same effect as a nop followed by it. */
  lemma BranchHasNoLastingEffect(g: Guest, b: Word, w2: Word, port: Port)
    requires Supported(b) && IsBranch(Classify(b).value)
    ensures RunBlock(g, [b, w2], port) == RunBlock(g, [0, w2], port)
  {
    BranchStepIsNopUpToPc(g, b, port);
    var gb := Step(g, b, port).value;
    var gn := Step(g, 0, port).value;
    StepIgnoresPc(gn, gb.state.pc, w2, port);
    assert [b, w2][1..] == [w2] && [0 as Word, w2][1..] == [w2];
    assert RunBlock(g, [b, w2], port) == RunBlock(gb, [w2], port);
    assert RunBlock(g, [0, w2], port) == RunBlock(gn, [w2], port);
  }

  /** `j target` followed by a delay slot that is not a control transfer
      ends the block with pc on the jump target, computed from the address
      of the delay slot. */
  lemma JumpLandsOnTarget(g: Guest, j: Word, w2: Word, port: Port)
    requires Supported(j) && Classify(j) == Some(J)
    requires Supported(w2) && !ModifiesPC(w2)
    requires RunBlock(g, [j, w2], port).Ok?
    ensures RunBlock(g, [j, w2], port).value.state.pc
         == JumpTarget(g.state.nextPc + 4, Decode(j).target)
  {
    JumpStep(g, j, port);
    var g1 := Step(g, j, port);
    assert [j, w2][1..] == [w2];
    assert RunBlock(g1.value, [w2], port) == Step(g1.value, w2, port);
    StepAdvancesPC(g1.value, w2, port);
  }

  /** The step of `j`: next_pc becomes the target, computed from the
      address of the delay slot. */
  lemma JumpStep(g: Guest, j: Word, port: Port)
    requires Classify(j) == Some(J)
    ensures Step(g, j, port).Ok?
    ensures Step(g, j, port).value.state.nextPc == JumpTarget(g.state.nextPc + 4, Decode(j).target)
  {
    var s := IncPC(g.state);
    assert Exec(g.(state := s), j, port) == Ok(g.(state := s.(nextPc := JumpTarget(s.nextPc, Decode(j).target))));
  }

  /** The step of `jr`: next_pc becomes the value of rs, read before the
      handler of the step runs; pc advances as usual. */
  lemma JrStep(g: Guest, j: Word, port: Port)
    requires Classify(j) == Some(Jr)
    ensures Step(g, j, port).Ok?
    ensures Step(g, j, port).value.state.nextPc == g.state.regs[Decode(j).rs as int]
    ensures Step(g, j, port).value.state.pc == g.state.nextPc
  {
    var s := IncPC(g.state);
    assert Exec(g.(state := s), j, port) == Ok(g.(state := s.(nextPc := s.regs[Decode(j).rs as int])));
  }

  /** The step of `mtc0`: cop0[rd] becomes regs[rt]; the other coprocessor
      registers keep their values. */
  lemma Mtc0Step(g: Guest, m: Word, port: Port)
    requires Classify(m) == Some(Mtc0)
    ensures Step(g, m, port).Ok?
    ensures Step(g, m, port).value.state.cop0
         == g.state.cop0[Decode(m).rd as int := g.state.regs[Decode(m).rt as int]]
  {
    var s := IncPC(g.state);
    assert Exec(g.(state := s), m, port)
        == Ok(g.(state := s.(cop0 := s.cop0[Decode(m).rd as int := s.regs[Decode(m).rt as int]])));
  }

  /** jal links the address after its delay slot into $ra (unless the
      load-delay handler of the same step overwrites $ra). */
  lemma JalLinks(g: Guest, j: Word, port: Port)
    requires Supported(j) && Classify(j) == Some(Jal)
    requires g.loadDelay.reg != 31
    ensures Step(g, j, port).Ok?
    ensures Step(g, j, port).value.state.regs[31] == g.state.nextPc + 4
  {
  }

  /** With the cache isolated (bit 16 of cop0 register 12), a store calls
      nothing and changes nothing, whatever the bus would do. */
  lemma StoreSuppressed(g: Guest, op: Op, f: Fields, port: Port)
    requires IsStore(op)
    requires CacheIsolated(g.state)
    ensures ExecOp(g, op, f, port) == Ok(g)
  {
  }

  /** The emitted code can write $zero, but with no load pending the handler
      of the same step writes 0 back. */
  lemma ZeroRegisterRestored(g: Guest, w: Word, port: Port)
    requires g.loadDelay == EmptySlot
    requires Step(g, w, port).Ok?
    ensures Step(g, w, port).value.state.regs[0] == 0
  {
  }

  /** Running a block in two pieces is running it whole. */
  lemma {:induction false} RunBlockAppend(g: Guest, a: seq<Word>, b: seq<Word>, port: Port)
    ensures RunBlock(g, a + b, port) ==
      match RunBlock(g, a, port)
      case Ok(g') => RunBlock(g', b, port)
      case Err(e) => Err(e)
    decreases |a|
  {
    if a == [] {
      assert a + b == b;
    } else {
      assert (a + b)[0] == a[0] && (a + b)[1..] == a[1..] + b;
      match Step(g, a[0], port)
      case Err(e) =>
      case Ok(g1) => RunBlockAppend(g1, a[1..], b, port);
    }
  }
}
