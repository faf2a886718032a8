/** The decoded-instruction records the scanners consume. The disassembler
    itself (Capstone: cs_open, cs_disasm, cs_free) is not modelled: a decode
    is a finite sequence of these records, given as input. Only the detail
    fields the deploy tool reads are kept: the instruction id, the operand
    count and the first two operands. */
module Insns {
  import opened Bytes

  /** The target architecture, a compile-time choice in the source. */
  datatype Arch = AArch64 | X86_64

  /** Instruction ids the scanners compare against; every other id is
      OtherMnemonic. An id is read against the decode's architecture. */
  datatype Mnemonic =
    | Ldr | Cmp | Cbz | Cbnz | Adr | Mov | Movn | Movk   // A64
    | Je                                                // x86-64 (Cmp and Mov are shared names)
    | OtherMnemonic(id: nat)

  datatype OperandKind = RegOperand | ImmOperand | MemOperand | OtherOperand

  datatype Register = X3 | Ecx | OtherRegister(id: nat)

  /** Shift amounts of A64 immediates; a uint64_t shifted by 64 or more is
      undefined in C, so the decoder never produces one. */
  type ShiftAmount = s: nat | s < 64

  /** One operand: its kind, and the register, immediate, memory
      displacement and shift fields of Capstone's operand detail. */
  datatype Operand = Operand(kind: OperandKind, reg: Register, imm: I64, disp: I64, shift: ShiftAmount)

  datatype Insn = Insn(id: Mnemonic, opCount: nat, op0: Operand, op1: Operand)
}
