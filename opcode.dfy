/** The 32-bit guest instruction word, its MIPS-I bit fields (the
    r_type / i_type / j_type views of the `Opcode` union the recompiler
    reads words through), the opcode numbering of
    cpu_recomp_core.h, and the two pure per-word tables of the recompiler:
    the size estimate of EmitInstruction and ModifiesPC. */
module Opcode {

  type Word = bv32

  /** The fields of one word, read through the four views of the union. */
  datatype Fields = Fields(
    opcode: bv6,   // bits 31..26
    rs: bv5,       // bits 25..21
    rt: bv5,       // bits 20..16
    rd: bv5,       // bits 15..11
    sa: bv5,       // bits 10..6
    func: bv6,     // bits 5..0
    imm: bv16,     // bits 15..0
    target: bv26)  // bits 25..0

  function Decode(w: Word): Fields
  {
    Fields(
      ((w >> 26) & 0x3F) as bv6,
      ((w >> 21) & 0x1F) as bv5,
      ((w >> 16) & 0x1F) as bv5,
      ((w >> 11) & 0x1F) as bv5,
      ((w >> 6) & 0x1F) as bv5,
      (w & 0x3F) as bv6,
      (w & 0xFFFF) as bv16,
      (w & 0x3FF_FFFF) as bv26)
  }

  /** Reassembly of the register form (r_type). */
  function EncodeR(opcode: bv6, rs: bv5, rt: bv5, rd: bv5, sa: bv5, func: bv6): Word
  {
    (opcode as Word << 26) | (rs as Word << 21) | (rt as Word << 16)
      | (rd as Word << 11) | (sa as Word << 6) | func as Word
  }

  /** Reassembly of the immediate form (i_type). */
  function EncodeI(opcode: bv6, rs: bv5, rt: bv5, imm: bv16): Word
  {
    (opcode as Word << 26) | (rs as Word << 21) | (rt as Word << 16) | imm as Word
  }

  /** Reassembly of the jump form (j_type). */
  function EncodeJ(opcode: bv6, target: bv26): Word
  {
    (opcode as Word << 26) | target as Word
  }

  lemma DecodeEncodeR(opcode: bv6, rs: bv5, rt: bv5, rd: bv5, sa: bv5, func: bv6)
    ensures var f := Decode(EncodeR(opcode, rs, rt, rd, sa, func));
      f.opcode == opcode && f.rs == rs && f.rt == rt && f.rd == rd && f.sa == sa && f.func == func
  {
  }

  lemma DecodeEncodeI(opcode: bv6, rs: bv5, rt: bv5, imm: bv16)
    ensures var f := Decode(EncodeI(opcode, rs, rt, imm));
      f.opcode == opcode && f.rs == rs && f.rt == rt && f.imm == imm
  {
  }

  lemma DecodeEncodeJ(opcode: bv6, target: bv26)
    ensures var f := Decode(EncodeJ(opcode, target));
      f.opcode == opcode && f.target == target
  {
  }

  /** Each of the three views covers the whole word: reassembling its fields
      gives the word back. */
  lemma EncodeDecodeR(w: Word)
    ensures var f := Decode(w); EncodeR(f.opcode, f.rs, f.rt, f.rd, f.sa, f.func) == w
  {
  }

  lemma EncodeDecodeI(w: Word)
    ensures var f := Decode(w); EncodeI(f.opcode, f.rs, f.rt, f.imm) == w
  {
  }

  lemma EncodeDecodeJ(w: Word)
    ensures var f := Decode(w); EncodeJ(f.opcode, f.target) == w
  {
  }

  /** The views overlap: rd, sa and func are the high, middle and low parts
      of imm, and target is rs, rt and imm together. */
  lemma FieldsOverlap(w: Word)
    ensures var f := Decode(w);
      && f.imm as Word == (f.rd as Word << 11) | (f.sa as Word << 6) | f.func as Word
      && f.target as Word == (f.rs as Word << 21) | (f.rt as Word << 16) | f.imm as Word
  {
  }

  // Primary opcode numbers (comments of cpu_recomp_core.h; addi and cop0
  // are the MIPS-I numbers the dispatch uses).
  const OpSpecial: bv6 := 0x00
  const OpJ: bv6 := 0x02
  const OpJal: bv6 := 0x03
  const OpBeq: bv6 := 0x04
  const OpBne: bv6 := 0x05
  const OpAddi: bv6 := 0x08
  const OpAddiu: bv6 := 0x09
  const OpAndi: bv6 := 0x0C
  const OpOri: bv6 := 0x0D
  const OpLui: bv6 := 0x0F
  const OpCop0: bv6 := 0x10
  const OpLb: bv6 := 0x20
  const OpLw: bv6 := 0x23
  const OpSb: bv6 := 0x28
  const OpSh: bv6 := 0x29
  const OpSw: bv6 := 0x2B

  // Special-function numbers (func field when opcode is special).  The
  // source's label for 0x2B is `sltiu`, but what it emits is sltu.
  const FuncJr: bv6 := 0x08
  const FuncAddu: bv6 := 0x21
  const FuncOr: bv6 := 0x25
  const FuncSltu: bv6 := 0x2B

  // Cop0 sub-opcode (rs field when opcode is cop0).
  const Cop0Mtc0: bv5 := 0x04

  /** The instructions the recompiler knows. */
  datatype Op =
    | Nop
    | Jr | Addu | Or | Sltu
    | J | Jal | Beq | Bne
    | Addi | Addiu | Andi | Ori | Lui
    | Mtc0
    | Lb | Lw | Sb | Sh | Sw

  /** The dispatch shared by EmitInstruction and CompileBlock: the all-zero
      word is a nop, then the primary opcode, then func or the cop0 rs field.
      None is the fatal "Unknown instruction" path. */
  function Classify(w: Word): Option<Op>
  {
    var f := Decode(w);
    if w == 0 then Some(Nop)
    else if f.opcode == OpSpecial then
      if f.func == FuncJr then Some(Jr)
      else if f.func == FuncAddu then Some(Addu)
      else if f.func == FuncOr then Some(Or)
      else if f.func == FuncSltu then Some(Sltu)
      else None
    else if f.opcode == OpJal then Some(Jal)
    else if f.opcode == OpJ then Some(J)
    else if f.opcode == OpBeq then Some(Beq)
    else if f.opcode == OpBne then Some(Bne)
    else if f.opcode == OpAddi then Some(Addi)
    else if f.opcode == OpAddiu then Some(Addiu)
    else if f.opcode == OpAndi then Some(Andi)
    else if f.opcode == OpOri then Some(Ori)
    else if f.opcode == OpLui then Some(Lui)
    else if f.opcode == OpCop0 then
      if f.rs == Cop0Mtc0 then Some(Mtc0) else None
    else if f.opcode == OpLb then Some(Lb)
    else if f.opcode == OpLw then Some(Lw)
    else if f.opcode == OpSb then Some(Sb)
    else if f.opcode == OpSh then Some(Sh)
    else if f.opcode == OpSw then Some(Sw)
    else None
  }

  datatype Option<+T> = None | Some(value: T)

  predicate Supported(w: Word)
  {
    Classify(w).Some?
  }

  /** ModifiesPC: decided on the raw word alone, without the nop test and
      without checking that the word is supported. */
  predicate ModifiesPC(w: Word)
  {
    var f := Decode(w);
    if f.opcode == OpSpecial then f.func == FuncJr
    else f.opcode == OpJ || f.opcode == OpJal || f.opcode == OpBeq || f.opcode == OpBne
  }

  /** The control-transfer instructions of the table. */
  predicate IsControlTransfer(op: Op)
  {
    op == Jr || op == J || op == Jal || op == Beq || op == Bne
  }

  /** On every supported word, ModifiesPC holds exactly for jr, j, jal, beq
      and bne; in particular the all-zero nop does not end a block. */
  lemma ModifiesPCExactlyControlTransfer(w: Word)
    requires Supported(w)
    ensures ModifiesPC(w) <==> IsControlTransfer(Classify(w).value)
  {
  }

  /** Host bytes EmitInstruction reserves for one instruction on top of the
      45 for the program-counter advance and the load-delay call. */
  function OpSize(op: Op): nat
  {
    match op
    case Nop => 1
    case Jr => 15
    case Addu | Or => 20
    case Sltu => 34
    case Jal => 36
    case J => 24
    case Beq | Bne => 27
    case Addi | Addiu => 19
    case Lui => 10
    case Mtc0 => 12
    case Andi | Ori => 20
    case Sb | Sh | Sw => 47
    case Lb | Lw => 55
  }

  /** Per-instruction overhead: 30 for EmitIncPC, 15 for EmitHandleLoadDelay. */
  const PerInstrOverhead: nat := 45

  /** Bytes reserved for the prologue and epilogue of a block (cur_size's
      reset value). */
  const BlockOverhead: nat := 25

  function InstrSize(w: Word): nat
    requires Supported(w)
  {
    PerInstrOverhead + OpSize(Classify(w).value)
  }

  /** The size estimate of a run of supported words. */
  function Estimate(ws: seq<Word>): (n: nat)
    requires forall w | w in ws :: Supported(w)
    ensures n >= PerInstrOverhead * |ws|
  {
    if ws == [] then 0 else Estimate(ws[..|ws| - 1]) + InstrSize(ws[|ws| - 1])
  }
}
