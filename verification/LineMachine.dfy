/** The line number state machine (section 6.2 of DWARF version 4). */
module LineMachine {
  import opened Machine
  import Arith

  /** What the state machine reads from the header of its line number program. */
  datatype Header = Header(minInstrLength: Byte, maxOps: Byte, defaultIsStmt: bool,
                           lineBase: int, lineRange: Byte, opcodeBase: Byte)
  {
    /** The divisors are not zero and the line base is a signed byte. */
    predicate Valid() {
      maxOps > 0 && lineRange > 0 && -0x80 <= lineBase < 0x80
    }
  }

  datatype Registers = Registers(address: Word, opIndex: Word, file: Word, line: Word, column: Word,
                                 isStmt: bool, basicBlock: bool, endSequence: bool, prologueEnd: bool,
                                 epilogueBegin: bool, isa: Word, discriminator: Word)

  // ---------------------------------------------------------------------------------------
  // Section 6.2.5: what each operation does to the registers

  function Initial(h: Header): Registers {
    Registers(0, 0, 1, 1, 0, h.defaultIsStmt, false, false, false, false, 0, 0)
  }

  /** The registers n operations past a whole instruction at base. */
  function At(h: Header, r: Registers, base: Word, n: nat): Registers
    requires h.Valid()
  {
    r.(address := Add(base, h.minInstrLength * (n / h.maxOps)), opIndex := n % h.maxOps)
  }

  /** Section 6.2.5.1: advance the address and op_index by a number of operations. */
  function AdvancePc(h: Header, r: Registers, operations: Word): Registers
    requires h.Valid()
  {
    At(h, r, r.address, Add(r.opIndex, operations))
  }

  function AdvanceLine(r: Registers, delta: int): Registers {
    r.(line := Add(r.line, delta))
  }

  /** The registers that are cleared once a row has been appended. */
  function AfterRow(r: Registers): Registers {
    r.(basicBlock := false, prologueEnd := false, epilogueBegin := false, discriminator := 0)
  }

  /** The line increment of a special opcode. */
  function SpecialLine(h: Header, op: Byte): int
    requires h.Valid() && op >= h.opcodeBase
  {
    h.lineBase + (op - h.opcodeBase) % h.lineRange
  }

  /** The operation advance of a special opcode. */
  function SpecialAdvance(h: Header, op: Byte): Byte
    requires h.Valid() && op >= h.opcodeBase
  {
    Arith.QuotientIsSmall(op - h.opcodeBase, h.lineRange);
    (op - h.opcodeBase) / h.lineRange
  }

  /** A decoded operation of a line number program. */
  datatype Op =
    | Special(op: Byte)
    | Copy
    | AdvancePC(operations: Word)
    | AdvanceLineBy(delta: int)
    | SetFile(number: Word)
    | SetColumn(column: Word)
    | NegateStmt
    | SetBasicBlock
    | ConstAddPC
    | FixedAdvancePC(step: nat)
    | SetPrologueEnd
    | SetEpilogueBegin
    | SetISA(isa: Word)
    | EndSequence
    | SetAddress(address: Word)
    | SetDiscriminator(discriminator: Word)
    | DefineFile(file: seq<Byte>, directory: Word, modified: Word, size: Word)

  /** Special opcodes start at the opcode base; const_add_pc stands for opcode 255. */
  predicate Encodable(h: Header, o: Op) {
    (o.Special? ==> o.op >= h.opcodeBase) && (o.FixedAdvancePC? ==> o.step < 0x1_0000)
  }

  /** The registers after an operation, and the row it appends. */
  function Step(h: Header, r: Registers, o: Op): (Registers, Option<Registers>)
    requires h.Valid() && Encodable(h, o)
  {
    match o
    case Special(op) =>
      var row := AdvanceLine(AdvancePc(h, r, SpecialAdvance(h, op)), SpecialLine(h, op));
      (AfterRow(row), Some(row))
    case Copy => (AfterRow(r), Some(r))
    case AdvancePC(n) => (AdvancePc(h, r, n), None)
    case AdvanceLineBy(d) => (AdvanceLine(r, d), None)
    case SetFile(f) => (r.(file := f), None)
    case SetColumn(c) => (r.(column := c), None)
    case NegateStmt => (r.(isStmt := !r.isStmt), None)
    case SetBasicBlock => (r.(basicBlock := true), None)
    case ConstAddPC => (AdvancePc(h, r, SpecialAdvance(h, 255)), None)
    case FixedAdvancePC(d) => (r.(address := Add(r.address, d), opIndex := 0), None)
    case SetPrologueEnd => (r.(prologueEnd := true), None)
    case SetEpilogueBegin => (r.(epilogueBegin := true), None)
    case SetISA(i) => (r.(isa := i), None)
    case EndSequence => (Initial(h), Some(r.(endSequence := true)))
    case SetAddress(a) => (r.(address := a, opIndex := 0), None)
    case SetDiscriminator(d) => (r.(discriminator := d), None)
    case DefineFile(_, _, _, _) => (r, None)
  }

  function Appended(row: Option<Registers>): seq<Registers> {
    match row case None => [] case Some(r) => [r]
  }

  predicate AllEncodable(h: Header, ops: seq<Op>) {
    ops == [] || (Encodable(h, ops[0]) && AllEncodable(h, ops[1..]))
  }

  /** A run of operations: the final registers and the rows of the matrix. */
  function Run(h: Header, r: Registers, ops: seq<Op>): (Registers, seq<Registers>)
    requires h.Valid() && AllEncodable(h, ops)
    decreases |ops|
  {
    if ops == [] then (r, [])
    else
      var (next, row) := Step(h, r, ops[0]);
      var (last, rows) := Run(h, next, ops[1..]);
      (last, Appended(row) + rows)
  }

  // ---------------------------------------------------------------------------------------
  // The object

  class LineStateMachine {
    const header: Header
    var address: Word
    var opIndex: Word
    var file: Word
    var line: Word
    var column: Word
    var isStmt: bool
    var basicBlock: bool
    var endSequence: bool
    var prologueEnd: bool
    var epilogueBegin: bool
    var isa: Word
    var discriminator: Word

    function State(): Registers
      reads this
    {
      Registers(address, opIndex, file, line, column, isStmt, basicBlock, endSequence, prologueEnd,
                epilogueBegin, isa, discriminator)
    }

    constructor (header: Header)
      ensures this.header == header && State() == Initial(header)
    {
      this.header := header;
      address, opIndex, file, line, column, isa, discriminator := 0, 0, 1, 1, 0, 0, 0;
      isStmt := header.defaultIsStmt;
      basicBlock, endSequence, prologueEnd, epilogueBegin := false, false, false, false;
    }

    method ResetInitial()
      modifies this
      ensures State() == Initial(header)
    {
      address, opIndex, file, line, column, isa, discriminator := 0, 0, 1, 1, 0, 0, 0;
      isStmt := header.defaultIsStmt;
      basicBlock, endSequence, prologueEnd, epilogueBegin := false, false, false, false;
    }

    method ResetRegs()
      modifies this`basicBlock, this`prologueEnd, this`epilogueBegin, this`discriminator
      ensures State() == AfterRow(old(State()))
    {
      basicBlock, prologueEnd, epilogueBegin, discriminator := false, false, false, 0;
    }

    method Advance(adv: Word)
      requires header.Valid()
      modifies this`address, this`opIndex
      ensures State() == AdvancePc(header, old(State()), adv)
    {
      address := Add(address, header.minInstrLength * (Add(opIndex, adv) / header.maxOps));
      opIndex := Add(opIndex, adv) % header.maxOps;
    }

    method FixedAdvance(adv: nat)
      modifies this`address, this`opIndex
      ensures State() == old(State()).(address := Add(old(address), adv), opIndex := 0)
    {
      address := Add(address, adv);
      opIndex := 0;
    }

    method AdvanceLineBy(l: int)
      modifies this`line
      ensures State() == AdvanceLine(old(State()), l) && line == Add(old(line), l)
    {
      line := Add(line, l);
    }

    method SetAddr(a: Word)
      modifies this`address, this`opIndex
      ensures State() == old(State()).(address := a, opIndex := 0)
    {
      address := a;
      opIndex := 0;
    }

    /** SpecialOp: the line is advanced before the address, and both from the old op_index. */
    method SpecialOp(op: Byte) returns (row: Registers)
      requires header.Valid() && op >= header.opcodeBase
      modifies this
      ensures (State(), Some(row)) == Step(header, old(State()), Special(op))
    {
      hide Add;
      Arith.QuotientIsSmall(op - header.opcodeBase, header.lineRange);
      var adjOp := op - header.opcodeBase;
      var adv := adjOp / header.lineRange;
      line := Add(line, header.lineBase + adjOp % header.lineRange);
      address := Add(address, header.minInstrLength * (Add(opIndex, adv) / header.maxOps));
      opIndex := Add(opIndex, adv) % header.maxOps;
      row := State();
      ResetRegs();
    }

    method AppendCopy() returns (row: Registers)
      modifies this
      ensures row == old(State()) && State() == AfterRow(old(State()))
    {
      row := State();
      ResetRegs();
    }

    method Finish() returns (row: Registers)
      modifies this
      ensures row == old(State()).(endSequence := true) && State() == Initial(header)
    {
      endSequence := true;
      row := State();
      ResetInitial();
    }

    /** The dispatch in the loop of parseLineSection. */
    method Execute(o: Op) returns (row: Option<Registers>)
      requires header.Valid() && Encodable(header, o)
      modifies this
      ensures (State(), row) == Step(header, old(State()), o)
    {
      hide Initial, AfterRow, AdvanceLine, AdvancePc, SpecialLine, Add;
      row := None;
      match o
      case Special(op) => var r := SpecialOp(op); row := Some(r);
      case Copy => var r := AppendCopy(); row := Some(r);
      case AdvancePC(n) => Advance(n);
      case AdvanceLineBy(d) => AdvanceLineBy(d);
      case SetFile(f) => file := f;
      case SetColumn(c) => column := c;
      case NegateStmt => isStmt := !isStmt;
      case SetBasicBlock => basicBlock := true;
      case ConstAddPC =>
        Arith.QuotientIsSmall(255 - header.opcodeBase, header.lineRange);
        Advance((255 - header.opcodeBase) / header.lineRange);
      case FixedAdvancePC(d) => FixedAdvance(d);
      case SetPrologueEnd => prologueEnd := true;
      case SetEpilogueBegin => epilogueBegin := true;
      case SetISA(i) => isa := i;
      case _ => row := ExecuteExtended(o);
    }

    /** The extended opcodes. */
    method ExecuteExtended(o: Op) returns (row: Option<Registers>)
      requires header.Valid() && (o.EndSequence? || o.SetAddress? || o.SetDiscriminator? || o.DefineFile?)
      modifies this
      ensures (State(), row) == Step(header, old(State()), o)
    {
      hide Initial, Add;
      row := None;
      if o.EndSequence? {
        var r := Finish();
        row := Some(r);
      } else if o.SetAddress? {
        SetAddr(o.address);
      } else if o.SetDiscriminator? {
        discriminator := o.discriminator;
      }
    }
  }

  // ---------------------------------------------------------------------------------------
  // Main results

  /** op_index stays below maximum_operations_per_instruction in every run and every row. */
  lemma {:induction false} OpIndexStaysInRange(h: Header, r: Registers, ops: seq<Op>)
    requires h.Valid() && AllEncodable(h, ops) && r.opIndex < h.maxOps
    ensures Run(h, r, ops).0.opIndex < h.maxOps
    ensures forall i :: 0 <= i < |Run(h, r, ops).1| ==> Run(h, r, ops).1[i].opIndex < h.maxOps
    decreases |ops|
  {
    if ops != [] {
      hide Step;
      StepKeepsOpIndex(h, r, ops[0]);
      OpIndexStaysInRange(h, Step(h, r, ops[0]).0, ops[1..]);
    }
  }

  lemma StepKeepsOpIndex(h: Header, r: Registers, o: Op)
    requires h.Valid() && Encodable(h, o) && r.opIndex < h.maxOps
    ensures var (next, row) := Step(h, r, o);
      next.opIndex < h.maxOps && (row.Some? ==> row.value.opIndex < h.maxOps)
  {
    hide AdvancePc, SpecialAdvance, SpecialLine, Add;
    match o
    case Special(op) => AdvanceInRange(h, r, SpecialAdvance(h, op));
    case AdvancePC(n) => AdvanceInRange(h, r, n);
    case ConstAddPC => AdvanceInRange(h, r, SpecialAdvance(h, 255));
    case _ =>
  }

  lemma AdvanceInRange(h: Header, r: Registers, n: Word)
    requires h.Valid()
    ensures AdvancePc(h, r, n).opIndex < h.maxOps
  {
    hide Add;
  }

  /** The arithmetic of two advances, the second from where the first one stopped. */
  lemma AdvanceTwice(h: Header, base: int, n: nat, a: nat)
    requires h.Valid()
    ensures var m, x := h.minInstrLength, h.maxOps;
      Add(Add(base, m * (n / x)), m * ((n % x + a) / x)) == Add(base, m * ((n + a) / x))
    ensures (n % h.maxOps + a) % h.maxOps == (n + a) % h.maxOps
  {
    var m, x := h.minInstrLength, h.maxOps;
    Arith.DivideInSteps(n, a, x);
    AddTwice(base, m * (n / x), m * ((n % x + a) / x));
    assert m * (n / x) + m * ((n % x + a) / x) == m * (n / x + (n % x + a) / x);
  }

  lemma AtFrom(h: Header, r: Registers, base: Word, n: nat, a: nat)
    requires h.Valid()
    ensures var s := At(h, r, base, n);
      s.opIndex == n % h.maxOps && At(h, s, s.address, s.opIndex + a) == At(h, r, base, n + a)
    ensures At(h, At(h, r, base, n), base, n + a) == At(h, r, base, n + a)
  {
    AdvanceTwice(h, base, n, a);
  }

  lemma AdvanceFrom(h: Header, r: Registers, base: Word, n: nat, a: Word)
    requires h.Valid() && r == At(h, r, base, n) && n % h.maxOps + a < WORD_SIZE
    ensures AdvancePc(h, r, a) == At(h, r, base, n + a)
  {
    hide At;
    AtFrom(h, r, base, n, a);
    assert Add(r.opIndex, a) == r.opIndex + a;
  }

  /** Advancing by a and then by b is advancing by a + b. */
  lemma AdvanceComposes(h: Header, r: Registers, a: Word, b: Word)
    requires h.Valid() && r.opIndex + a + b < WORD_SIZE
    ensures AdvancePc(h, AdvancePc(h, r, a), b) == AdvancePc(h, r, a + b)
  {
    hide At;
    var n := r.opIndex + a;
    Arith.QuotientIsSmall(n, h.maxOps);
    assert Add(r.opIndex, a) == n && Add(r.opIndex, a + b) == n + b;
    AtFrom(h, r, r.address, n, b);
    var s := At(h, r, r.address, n);
    assert Add(s.opIndex, b) == s.opIndex + b;
  }

  /** Sections 6.2.5.2 and 6.2.5.3: what the other operations set, and the rows they append. */
  lemma OperationsMean(h: Header, r: Registers, o: Op)
    requires h.Valid() && Encodable(h, o)
    ensures o.Copy? || o.Special? || o.EndSequence? <==> Step(h, r, o).1.Some?
    ensures match o
      case AdvanceLineBy(d) => Step(h, r, o).0 == r.(line := Add(r.line, d))
      case SetFile(f) => Step(h, r, o).0 == r.(file := f)
      case SetColumn(c) => Step(h, r, o).0 == r.(column := c)
      case NegateStmt => Step(h, r, o).0 == r.(isStmt := !r.isStmt)
      case SetBasicBlock => Step(h, r, o).0 == r.(basicBlock := true)
      case FixedAdvancePC(d) => Step(h, r, o).0 == r.(address := Add(r.address, d), opIndex := 0)
      case SetPrologueEnd => Step(h, r, o).0 == r.(prologueEnd := true)
      case SetEpilogueBegin => Step(h, r, o).0 == r.(epilogueBegin := true)
      case SetISA(i) => Step(h, r, o).0 == r.(isa := i)
      case SetAddress(a) => Step(h, r, o).0 == r.(address := a, opIndex := 0)
      case SetDiscriminator(d) => Step(h, r, o).0 == r.(discriminator := d)
      case DefineFile(_, _, _, _) => Step(h, r, o).0 == r
      case Copy => Step(h, r, o) ==
        (r.(basicBlock := false, prologueEnd := false, epilogueBegin := false, discriminator := 0), Some(r))
      case EndSequence => Step(h, r, o) ==
        (Registers(0, 0, 1, 1, 0, h.defaultIsStmt, false, false, false, false, 0, 0), Some(r.(endSequence := true)))
      case _ => true
  {
    hide Add;
  }

  /** Section 6.2.5.1: q whole instructions and s operations past the last instruction boundary. */
  lemma AdvanceMeans(h: Header, r: Registers, operations: Word, q: nat, s: nat)
    requires h.Valid() && s < h.maxOps && Add(r.opIndex, operations) == q * h.maxOps + s
    ensures Step(h, r, AdvancePC(operations))
      == (r.(address := Add(r.address, h.minInstrLength * q), opIndex := s), None)
  {
    Arith.DivisionIsUnique(Add(r.opIndex, operations), h.maxOps, q, s);
  }

  /** Section 6.2.5.1: the opcode that is computed for a line increment and an operation advance
      appends the row after that increment and that advance. */
  lemma SpecialOpcodeFormula(h: Header, r: Registers, op: Byte, increment: int, operations: Byte)
    requires h.Valid() && 0 <= increment - h.lineBase < h.lineRange
    requires op == (increment - h.lineBase) + h.lineRange * operations + h.opcodeBase
    ensures op >= h.opcodeBase
    ensures var moved := Step(h, r, AdvancePC(operations)).0;
      var row := moved.(line := Add(r.line, increment));
      Step(h, r, Special(op)) ==
        (row.(basicBlock := false, prologueEnd := false, epilogueBegin := false, discriminator := 0), Some(row))
  {
    OpcodeIsUnique(op, h.opcodeBase, h.lineRange, operations, increment - h.lineBase);
  }

  /** const_add_pc advances as opcode 255 does. */
  lemma ConstAddPcFormula(h: Header, r: Registers, rest: nat, operations: Byte)
    requires h.Valid() && rest < h.lineRange && 255 == rest + h.lineRange * operations + h.opcodeBase
    ensures Step(h, r, ConstAddPC) == Step(h, r, AdvancePC(operations))
  {
    OpcodeIsUnique(255, h.opcodeBase, h.lineRange, operations, rest);
  }

  lemma OpcodeIsUnique(op: Byte, base: Byte, range: Byte, q: nat, r: nat)
    requires r < range && op == r + range * q + base
    ensures op >= base && (op - base) / range == q && (op - base) % range == r
  {
    assert range * q >= 0;
    Arith.DivisionIsUnique(op - base, range, q, r);
  }

  /** A special opcode does what advance_pc, advance_line and copy do with its two operands. */
  lemma SpecialIsThreeOperations(h: Header, r: Registers, op: Byte)
    requires h.Valid() && op >= h.opcodeBase
    ensures var (r1, row1) := Step(h, r, AdvancePC(SpecialAdvance(h, op)));
      var (r2, row2) := Step(h, r1, AdvanceLineBy(SpecialLine(h, op)));
      row1 == None && row2 == None && Step(h, r2, Copy) == Step(h, r, Special(op))
  {
  }

  /** How many operations an operation of the program advances by; None if it sets the address. */
  function Operations(h: Header, o: Op): Option<nat>
    requires h.Valid() && Encodable(h, o)
  {
    match o
    case Special(op) => Some(SpecialAdvance(h, op))
    case AdvancePC(n) => Some(n)
    case ConstAddPC => Some(SpecialAdvance(h, 255))
    case FixedAdvancePC(_) => None
    case SetAddress(_) => None
    case EndSequence => None
    case _ => Some(0)
  }

  function TotalOperations(h: Header, ops: seq<Op>): Option<nat>
    requires h.Valid() && AllEncodable(h, ops)
    decreases |ops|
  {
    if ops == [] then Some(0)
    else
      match (Operations(h, ops[0]), TotalOperations(h, ops[1..]))
      case (Some(a), Some(b)) => Some(a + b)
      case _ => None
  }

  /** Whatever mixture of opcodes moves it, the address only depends on the total number of
      operations since it was last set: mixed-radix counting. */
  lemma {:induction false} PositionIsTotalOperations(h: Header, r: Registers, base: Word, n: nat, ops: seq<Op>)
    requires h.Valid() && AllEncodable(h, ops) && r == At(h, r, base, n)
    requires TotalOperations(h, ops).Some? && n + TotalOperations(h, ops).value < WORD_SIZE
    ensures var last := Run(h, r, ops).0;
      last == At(h, last, base, n + TotalOperations(h, ops).value)
    decreases |ops|
  {
    if ops != [] {
      hide Step, At, Operations;
      var a := Operations(h, ops[0]).value;
      var next := Step(h, r, ops[0]).0;
      StepCounts(h, r, base, n, ops[0]);
      PositionIsTotalOperations(h, next, base, n + a, ops[1..]);
    }
  }

  lemma StepCounts(h: Header, r: Registers, base: Word, n: nat, o: Op)
    requires h.Valid() && Encodable(h, o) && r == At(h, r, base, n)
    requires Operations(h, o).Some? && n + Operations(h, o).value < WORD_SIZE
    ensures var next := Step(h, r, o).0;
      next == At(h, next, base, n + Operations(h, o).value)
  {
    hide Add, SpecialAdvance, SpecialLine;
    var a := Operations(h, o).value;
    Arith.QuotientIsSmall(n, h.maxOps);
    AdvanceFrom(h, r, base, n, a);
  }

  // ---------------------------------------------------------------------------------------
  // Expansion into primitive operations

  /** Section 6.2.5: a special opcode spelt out as advance_pc, advance_line and copy, and
      const_add_pc as the advance_pc of special opcode 255. */
  function Expanded(h: Header, o: Op): seq<Op>
    requires h.Valid() && Encodable(h, o)
  {
    match o
    case Special(op) => [AdvancePC(SpecialAdvance(h, op)), AdvanceLineBy(SpecialLine(h, op)), Copy]
    case ConstAddPC => [AdvancePC(SpecialAdvance(h, 255))]
    case _ => [o]
  }

  function Expand(h: Header, ops: seq<Op>): seq<Op>
    requires h.Valid() && AllEncodable(h, ops)
    decreases |ops|
  {
    if ops == [] then [] else Expanded(h, ops[0]) + Expand(h, ops[1..])
  }

  lemma {:induction false} RunConcat(h: Header, r: Registers, a: seq<Op>, b: seq<Op>)
    requires h.Valid() && AllEncodable(h, a) && AllEncodable(h, b)
    ensures AllEncodable(h, a + b)
    ensures var (s, rows) := Run(h, r, a);
      var (last, more) := Run(h, s, b);
      Run(h, r, a + b) == (last, rows + more)
    decreases |a|
  {
    hide Step, Encodable, Appended;
    if a == [] {
      assert a + b == b;
      assert [] + Run(h, r, b).1 == Run(h, r, b).1;
    } else {
      assert (a + b)[1..] == a[1..] + b;
      var (next, row) := Step(h, r, a[0]);
      RunConcat(h, next, a[1..], b);
      var (s, rows) := Run(h, next, a[1..]);
      var more := Run(h, s, b).1;
      assert Appended(row) + (rows + more) == Appended(row) + rows + more;
    }
  }

  lemma OneRuns(h: Header, r: Registers, o: Op)
    requires h.Valid() && Encodable(h, o)
    ensures AllEncodable(h, [o]) && Run(h, r, [o]) == (Step(h, r, o).0, Appended(Step(h, r, o).1))
  {
    hide Step, Encodable;
    assert [o][1..] == [];
    assert Appended(Step(h, r, o).1) + [] == Appended(Step(h, r, o).1);
  }

  lemma ExpandedRuns(h: Header, r: Registers, o: Op)
    requires h.Valid() && Encodable(h, o)
    ensures AllEncodable(h, Expanded(h, o))
    ensures Run(h, r, Expanded(h, o)) == (Step(h, r, o).0, Appended(Step(h, r, o).1))
  {
    hide Run, AdvancePc, AdvanceLine, AfterRow, SpecialAdvance, SpecialLine;
    match o
    case Special(op) =>
      var x, y := AdvancePC(SpecialAdvance(h, op)), AdvanceLineBy(SpecialLine(h, op));
      OneRuns(h, r, x);
      var r1 := Step(h, r, x).0;
      OneRuns(h, r1, y);
      RunConcat(h, r, [x], [y]);
      var r2 := Step(h, r1, y).0;
      OneRuns(h, r2, Copy);
      RunConcat(h, r, [x] + [y], [Copy]);
      assert [x] + [y] + [Copy] == Expanded(h, o);
      SpecialIsThreeOperations(h, r, op);
      var rows := Appended(Step(h, r2, Copy).1);
      assert Appended(None) + Appended(None) + rows == rows;
    case ConstAddPC => OneRuns(h, r, AdvancePC(SpecialAdvance(h, 255)));
    case _ => OneRuns(h, r, o);
  }

  /** Every program means the same as its expansion: the same final registers and the same rows. */
  lemma {:induction false} ExpansionKeepsRun(h: Header, r: Registers, ops: seq<Op>)
    requires h.Valid() && AllEncodable(h, ops)
    ensures AllEncodable(h, Expand(h, ops)) && Run(h, r, Expand(h, ops)) == Run(h, r, ops)
    decreases |ops|
  {
    hide Step, Encodable, Appended, Expanded;
    if ops != [] {
      ExpandedRuns(h, r, ops[0]);
      ExpansionKeepsRun(h, Step(h, r, ops[0]).0, ops[1..]);
      RunConcat(h, r, Expanded(h, ops[0]), Expand(h, ops[1..]));
    }
  }
}
