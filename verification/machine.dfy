/**
 Shared machine-level data model of the SBF backend: target configuration,
 opcodes, operands and instructions. Opcode numbers, register-class objects and
 debug locations of the real backend are abstracted away.
 */
module Machine {

  datatype Option<+T> = None | Some(value: T)

  /** The result of an operation that may stop compilation with a fatal error
      (`llvm_unreachable` in the backend). */
  datatype Result<+T> = Ok(value: T) | Fatal(reason: string)

  /** The two target feature flags, fixed per compilation target. */
  datatype Config = Config(newMemEncoding: bool, hasExplicitSignExt: bool)

  /** Legacy (`_V1`) or revised (`_V2`) memory-instruction encoding. */
  datatype Enc = V1 | V2

  /** The memory-instruction encoding a configuration selects. */
  function MemEnc(cfg: Config): Enc
  {
    if cfg.newMemEncoding then V2 else V1
  }

  /** Register + offset memory opcodes; each carries the encoding variant it
      belongs to. */
  datatype MemOp =
    // loads into a 64-bit register
    | LDB(enc: Enc) | LDH(enc: Enc) | LDW(enc: Enc) | LDD(enc: Enc)
    // loads into a 32-bit register
    | LDB32(enc: Enc) | LDH32(enc: Enc) | LDW32(enc: Enc)
    // stores of a 64-bit register
    | STB(enc: Enc) | STH(enc: Enc) | STW(enc: Enc) | STD(enc: Enc)
    // stores of a 32-bit register
    | STB32(enc: Enc) | STH32(enc: Enc) | STW32(enc: Enc)
    // stores of an immediate
    | STB_imm(enc: Enc) | STH_imm(enc: Enc) | STW_imm(enc: Enc) | STD_imm(enc: Enc)

  /** The relocation-carrying pseudo instructions read by the encoder. */
  datatype CoreOp = CORE_LD64(enc: Enc) | CORE_LD32(enc: Enc) | CORE_ST(enc: Enc) | CORE_SHIFT

  /** Register arithmetic and moves. */
  datatype AluOp =
    | LD_imm64 | ADD_rr | SLL_rr | SRA_rr | SRL_rr | SLL_ri | SRA_ri | SRL_ri
    | MOV_rr | MOV_rr_32_no_sext_v1 | MOV_rr_32_no_sext_v2

  /** Target opcodes, grouped by family. */
  datatype Opcode =
    | Mem(mem: MemOp)
    | Core(core: CoreOp)
    | Alu(alu: AluOp)
    // generic and target pseudo instructions
    | COPY | SUBREG_TO_REG | MEMCPY
    // control flow
    | JMP | CondJump(cond: nat) | RET
    | DBG_VALUE
    // any other instruction: not a terminator, not a memory access
    | Other(code: nat)

  predicate IsDebug(op: Opcode)
  {
    op == DBG_VALUE
  }

  predicate IsTerminator(op: Opcode)
  {
    op == JMP || op.CondJump? || op == RET
  }

  predicate IsBranch(op: Opcode)
  {
    op == JMP || op.CondJump?
  }

  /** Kinds of register + offset memory access. */
  datatype Access = Load | StoreReg | StoreImm

  /** What a memory opcode does: direction, access width in bytes, whether the
      register it moves is a 32-bit sub-register, and its encoding variant. */
  datatype MemForm = MemForm(access: Access, bytes: nat, narrow: bool, enc: Enc)

  /** Description of every register + offset memory opcode of the target; None
      for the other opcodes. */
  function MemShape(op: Opcode): Option<MemForm>
  {
    match op
    case Mem(m) =>
      Some(match m
        case LDB(e) => MemForm(Load, 1, false, e)
        case LDH(e) => MemForm(Load, 2, false, e)
        case LDW(e) => MemForm(Load, 4, false, e)
        case LDD(e) => MemForm(Load, 8, false, e)
        case LDB32(e) => MemForm(Load, 1, true, e)
        case LDH32(e) => MemForm(Load, 2, true, e)
        case LDW32(e) => MemForm(Load, 4, true, e)
        case STB(e) => MemForm(StoreReg, 1, false, e)
        case STH(e) => MemForm(StoreReg, 2, false, e)
        case STW(e) => MemForm(StoreReg, 4, false, e)
        case STD(e) => MemForm(StoreReg, 8, false, e)
        case STB32(e) => MemForm(StoreReg, 1, true, e)
        case STH32(e) => MemForm(StoreReg, 2, true, e)
        case STW32(e) => MemForm(StoreReg, 4, true, e)
        case STB_imm(e) => MemForm(StoreImm, 1, false, e)
        case STH_imm(e) => MemForm(StoreImm, 2, false, e)
        case STW_imm(e) => MemForm(StoreImm, 4, false, e)
        case STD_imm(e) => MemForm(StoreImm, 8, false, e))
    case _ => None
  }

  /** A global value; only global variables carry the relocation attributes. */
  datatype GlobalValue =
    | Variable(name: nat, ama: bool, typeId: bool)
    | Function(name: nat)

  /** Machine operands. A register operand records whether it is a definition,
      whether it kills the register, and whether it reads the 32-bit
      sub-register of a 64-bit register. `OpcodeImm` is an immediate whose value
      is the number of the opcode it names. */
  datatype Operand =
    | Reg(reg: nat, isDef: bool, isKill: bool, sub32: bool)
    | Imm(value: int)
    | OpcodeImm(tag: Opcode)
    | Global(gv: GlobalValue)
    | FrameIdx(slot: int)
    | MBB(block: nat)

  /** A register definition operand. */
  function DefReg(r: nat): Operand
  {
    Reg(r, true, false, false)
  }

  /** A register use operand. */
  function UseReg(r: nat, kill: bool): Operand
  {
    Reg(r, false, kill, false)
  }

  datatype Instr = Instr(opcode: Opcode, ops: seq<Operand>)

  /** A basic block's instructions in order. */
  type Block = seq<Instr>
}
