/** Call frame instructions as they are held after parsing, the register names of the two
    supported machines, and the register rules they build (section 6.4 of DWARF version 4). */
module Cfa {
  import opened Machine

  const ADVANCE_LOC_DELTA0: Byte := 0x40
  const ADVANCE_LOC_DELTA63: Byte := 0x7f
  const OFFSET_REG0: Byte := 0x80
  const OFFSET_REG63: Byte := 0xbf
  const RESTORE_REG0: Byte := 0xc0
  const NOP: Byte := 0x00
  const SET_LOC: Byte := 0x01
  const ADVANCE_LOC1: Byte := 0x02
  const ADVANCE_LOC2: Byte := 0x03
  const ADVANCE_LOC4: Byte := 0x04
  const OFFSET_EXTENDED: Byte := 0x05
  const RESTORE_EXTENDED: Byte := 0x06
  const UNDEFINED: Byte := 0x07
  const SAME_VALUE: Byte := 0x08
  const REGISTER: Byte := 0x09
  const REMEMBER_STATE: Byte := 0x0a
  const RESTORE_STATE: Byte := 0x0b
  const DEF_CFA: Byte := 0x0c
  const DEF_CFA_REGISTER: Byte := 0x0d
  const DEF_CFA_OFFSET: Byte := 0x0e
  const DEF_CFA_EXPRESSION: Byte := 0x0f
  const EXPRESSION: Byte := 0x10
  const OFFSET_EXTENDED_SF: Byte := 0x11
  const DEF_CFA_SF: Byte := 0x12
  const DEF_CFA_OFFSET_SF: Byte := 0x13
  const VAL_OFFSET: Byte := 0x14
  const VAL_OFFSET_SF: Byte := 0x15
  const VAL_EXPRESSION: Byte := 0x16
  const GNU_ARGS_SIZE: Byte := 0x2e
  const GNU_NEGATIVE_OFFSET_EXTENDED: Byte := 0x2f

  /** An operand: absent, an integer read as unsigned or signed, or a block. */
  datatype Attr = NoAttr | Unsigned(u: int) | Signed(i: int) | Buffer(bytes: seq<Byte>)

  datatype CFA = CFA(op: Byte, op1: Attr, op2: Attr)

  // ---------------------------------------------------------------------------------------
  // Registers

  datatype Arch = X86_64 | AArch64

  const CFA_KEY := " "
  const RA_KEY := "ra"

  function PcName(a: Arch): string { if a.X86_64? then "rip" else "pc" }
  function SpName(a: Arch): string { if a.X86_64? then "rsp" else "sp" }
  function FbName(a: Arch): string { if a.X86_64? then "rbp" else "x29" }
  function MinInstrBytes(a: Arch): nat { if a.X86_64? then 1 else 4 }

  const X86_NAMES := ["rax", "rdx", "rcx", "rbx", "rsi", "rdi", "rbp", "rsp", "r8", "r9", "r10", "r11",
                      "r12", "r13", "r14", "r15", "ra"]

  const DIGITS := "0123456789"

  /** dwarfRegString; None stands for its exception. */
  function RegName(a: Arch, reg: int): Option<string> {
    match a
    case X86_64 => if 0 <= reg <= 16 then Some(X86_NAMES[reg]) else None
    case AArch64 =>
      if 0 <= reg < 10 then Some("x" + [DIGITS[reg]])
      else if 10 <= reg <= 30 then Some("x" + [DIGITS[reg / 10], DIGITS[reg % 10]])
      else if reg == 31 then Some("sp")
      else None
  }

  /** The numbers of the x86-64 registers by name. */
  lemma X86RegisterNumbers(reg: int)
    ensures var name := RegName(X86_64, reg);
      && (reg == 0 <==> name == Some("rax")) && (reg == 1 <==> name == Some("rdx"))
      && (reg == 2 <==> name == Some("rcx")) && (reg == 3 <==> name == Some("rbx"))
      && (reg == 4 <==> name == Some("rsi")) && (reg == 5 <==> name == Some("rdi"))
      && (reg == 6 <==> name == Some("rbp")) && (reg == 7 <==> name == Some("rsp"))
      && (reg == 8 <==> name == Some("r8")) && (reg == 9 <==> name == Some("r9"))
      && (reg == 10 <==> name == Some("r10")) && (reg == 11 <==> name == Some("r11"))
      && (reg == 12 <==> name == Some("r12")) && (reg == 13 <==> name == Some("r13"))
      && (reg == 14 <==> name == Some("r14")) && (reg == 15 <==> name == Some("r15"))
      && (reg == 16 <==> name == Some("ra")) && (name.None? <==> reg < 0 || 16 < reg)
  {
  }

  /** The number that decimal digits stand for. */
  function Decimal(s: string): int {
    if s == [] then 0 else 10 * Decimal(s[..|s| - 1]) + (s[|s| - 1] as int - '0' as int)
  }

  /** An AArch64 register's name is x and its number in decimal, without a leading zero. */
  lemma A64RegisterNumbers(reg: int)
    ensures var name := RegName(AArch64, reg);
      && (reg == 31 ==> name == Some("sp")) && (name.None? <==> reg < 0 || 31 < reg)
      && (0 <= reg <= 30 ==>
           && name.Some? && name.value[..1] == "x" && Decimal(name.value[1..]) == reg
           && (forall i :: 1 <= i < |name.value| ==> '0' <= name.value[i] <= '9')
           && |name.value| == if reg < 10 then 2 else 3)
  {
    if 0 <= reg < 10 {
      var d := [DIGITS[reg]];
      assert RegName(AArch64, reg).value[1..] == d && d[..0] == [];
    } else if 10 <= reg <= 30 {
      var d := [DIGITS[reg / 10], DIGITS[reg % 10]];
      assert RegName(AArch64, reg).value[1..] == d && d[..1] == [DIGITS[reg / 10]] && d[..1][..0] == [];
    }
  }

  /** The keys of the frame address and the return address, and the registers of each machine that
      have a part of their own in unwinding. */
  lemma NamesOfMachines()
    ensures PcName(X86_64) == "rip" && SpName(X86_64) == "rsp" && FbName(X86_64) == "rbp"
    ensures PcName(AArch64) == "pc" && SpName(AArch64) == "sp" && FbName(AArch64) == "x29"
    ensures CFA_KEY == " " && RA_KEY == "ra"
    ensures MinInstrBytes(X86_64) == 1 && MinInstrBytes(AArch64) == 4
  {
  }

  // ---------------------------------------------------------------------------------------
  // Register rules

  datatype RuleKind = RuleUndefined | RuleSame | RuleOffset | RuleValOffset | RuleRegister | RuleExpr | RuleValExpr

  datatype RegRule = RegRule(kind: RuleKind, reg: string, op: Attr)

  type Rules = map<string, RegRule>

  datatype Error =
    | UnknownRegister
    | NotUnsigned
    | NotAnInteger
    | NoCfaRule
    | Unhandled
    | CfaNotValue
}
