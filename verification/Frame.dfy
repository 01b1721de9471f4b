/** FDE::unwindInfo: the interpreter of a call frame program that stops at the first row past
    the program counter, against the full table of section 6.4.1 of DWARF version 4. */
module Frame {
  import opened Machine
  import opened Cfa
  import Leb128

  datatype CIE = CIE(codeAlign: Word, dataAlign: int, raCol: Word, instructions: seq<CFA>)

  datatype FDE = FDE(cie: CIE, startAddr: Word, endAddr: Word, instructions: seq<CFA>)
  {
    function Program(): seq<CFA> {
      cie.instructions + instructions
    }
  }

  predicate IsAdvance(i: CFA) {
    ADVANCE_LOC_DELTA0 <= i.op <= ADVANCE_LOC_DELTA63 ||
    i.op == ADVANCE_LOC1 || i.op == ADVANCE_LOC2 || i.op == ADVANCE_LOC4
  }

  /** How far an advance moves; an operand that is not unsigned throws. */
  function Delta(cie: CIE, i: CFA): Result<int, Error>
    requires IsAdvance(i)
  {
    if ADVANCE_LOC_DELTA0 <= i.op <= ADVANCE_LOC_DELTA63 then
      Ok((i.op - ADVANCE_LOC_DELTA0) * cie.codeAlign)
    else if i.op1.Unsigned? then Ok(i.op1.u * cie.codeAlign)
    else Err(NotUnsigned)
  }

  /** The effect of an instruction that stays in the current row. */
  function Apply(a: Arch, cie: CIE, rules: Rules, i: CFA): Result<Rules, Error> {
    if OFFSET_REG0 <= i.op <= OFFSET_REG63 then
      var reg := i.op - OFFSET_REG0;
      var name := if reg == cie.raCol then Some(RA_KEY) else RegName(a, reg);
      if name.None? then Err(UnknownRegister)
      else if !i.op1.Unsigned? then Err(NotUnsigned)
      else Ok(rules[name.value := RegRule(RuleOffset, name.value, Signed(ToSigned(i.op1.u * cie.dataAlign)))])
    else if i.op == DEF_CFA then
      if !i.op1.Unsigned? || !i.op2.Unsigned? then Err(NotUnsigned)
      else
        var name := RegName(a, i.op1.u);
        if name.None? then Err(UnknownRegister)
        else Ok(rules[CFA_KEY := RegRule(RuleValOffset, name.value, Signed(ToSigned(i.op2.u)))])
    else if i.op == DEF_CFA_OFFSET then
      if CFA_KEY !in rules then Err(NoCfaRule)
      else if !i.op1.Unsigned? then Err(NotUnsigned)
      else Ok(rules[CFA_KEY := RegRule(RuleValOffset, rules[CFA_KEY].reg, Signed(ToSigned(i.op1.u)))])
    else if i.op == DEF_CFA_REGISTER then
      if CFA_KEY !in rules then Err(NoCfaRule)
      else if !i.op1.Unsigned? then Err(NotUnsigned)
      else
        var name := RegName(a, i.op1.u);
        if name.None? then Err(UnknownRegister)
        else Ok(rules[CFA_KEY := RegRule(RuleValOffset, name.value, rules[CFA_KEY].op)])
    else if i.op == NOP then Ok(rules)
    else Err(Unhandled)
  }

  // ---------------------------------------------------------------------------------------
  // The full table

  /** A row holds from its location up to the next row's; a program that fails has the failure
      in its last row. */
  datatype Row = Row(loc: Word, rules: Result<Rules, Error>)

  function Table(a: Arch, cie: CIE, program: seq<CFA>, loc: Word, rules: Rules): (rows: seq<Row>)
    ensures rows != [] && rows[0].loc == loc
  {
    if program == [] then [Row(loc, Ok(rules))]
    else if IsAdvance(program[0]) then
      match Delta(cie, program[0])
      case Err(e) => [Row(loc, Err(e))]
      case Ok(delta) => [Row(loc, Ok(rules))] + Table(a, cie, program[1..], Add(loc, delta), rules)
    else
      match Apply(a, cie, rules, program[0])
      case Err(e) => [Row(loc, Err(e))]
      case Ok(r) => Table(a, cie, program[1..], loc, r)
  }

  /** Rows are listed in increasing order of location, as section 6.4.1 describes them. */
  ghost predicate Ordered(rows: seq<Row>) {
    forall i, j :: 0 <= i <= j < |rows| ==> rows[i].loc <= rows[j].loc
  }

  /** Which row is the last whose location is at most pc, by a scan of the whole table. */
  function Lookup(rows: seq<Row>, pc: Word): (r: Option<nat>)
    ensures r.Some? ==> r.value < |rows|
  {
    if rows == [] then None
    else
      match Lookup(rows[1..], pc)
      case Some(n) => Some(n + 1)
      case None => if rows[0].loc <= pc then Some(0) else None
  }

  /** Which row is the last before the first one that lies past pc. */
  function StopAt(rows: seq<Row>, pc: Word): (n: nat)
    requires rows != []
    ensures n < |rows|
  {
    if |rows| > 1 && rows[1].loc <= pc then 1 + StopAt(rows[1..], pc) else 0
  }

  // ---------------------------------------------------------------------------------------
  // The early-exit interpreter

  /** The row the interpreter stops in. */
  function Interpret(a: Arch, cie: CIE, program: seq<CFA>, loc: Word, rules: Rules, pc: Word): Row {
    if program == [] then Row(loc, Ok(rules))
    else if IsAdvance(program[0]) then
      match Delta(cie, program[0])
      case Err(e) => Row(loc, Err(e))
      case Ok(delta) =>
        var newLoc := Add(loc, delta);
        if pc >= newLoc then Interpret(a, cie, program[1..], newLoc, rules, pc) else Row(loc, Ok(rules))
    else
      match Apply(a, cie, rules, program[0])
      case Err(e) => Row(loc, Err(e))
      case Ok(r) => Interpret(a, cie, program[1..], loc, r, pc)
  }

  /** unwindInfo: the assertion at the end is the source's own. */
  method UnwindInfo(a: Arch, fde: FDE, pc: Word) returns (info: Result<Rules, Error>)
    requires fde.startAddr <= pc <= fde.endAddr
    ensures info == Interpret(a, fde.cie, fde.cie.instructions + fde.instructions, fde.startAddr, map[], pc).rules
  {
    var rules: Rules := map[];
    var loc: Word := fde.startAddr;
    var instrs := fde.cie.instructions + fde.instructions;
    var n := 0;
    while n < |instrs|
      invariant n <= |instrs| && loc <= pc
      invariant Interpret(a, fde.cie, instrs[n..], loc, rules, pc)
        == Interpret(a, fde.cie, instrs, fde.startAddr, map[], pc)
    {
      var it := instrs[n];
      assert instrs[n..][0] == it && instrs[n..][1..] == instrs[n + 1..];
      if IsAdvance(it) {
        var delta := Delta(fde.cie, it);
        if delta.Err? { return Err(delta.error); }
        var newLoc := Add(loc, delta.value);
        if pc >= newLoc {
          loc := newLoc;
        } else {
          break;
        }
      } else {
        var r := Apply(a, fde.cie, rules, it);
        if r.Err? { return Err(r.error); }
        rules := r.value;
      }
      n := n + 1;
    }
    if loc != pc {
      loc := fde.endAddr;
    }
    assert loc >= pc;
    info := Ok(rules);
  }

  // ---------------------------------------------------------------------------------------
  // Main results

  /** For every program: the interpreter stops in the last row before the first one past pc,
      and never passes pc itself. */
  lemma {:induction false} InterpretStopsAt(a: Arch, cie: CIE, program: seq<CFA>, loc: Word, rules: Rules, pc: Word)
    requires loc <= pc
    ensures var rows := Table(a, cie, program, loc, rules);
      Interpret(a, cie, program, loc, rules, pc) == rows[StopAt(rows, pc)]
    ensures Interpret(a, cie, program, loc, rules, pc).loc <= pc
  {
    if program != [] {
      if IsAdvance(program[0]) {
        var delta := Delta(cie, program[0]);
        if delta.Ok? {
          var newLoc := Add(loc, delta.value);
          var rest := Table(a, cie, program[1..], newLoc, rules);
          assert Table(a, cie, program, loc, rules)[1..] == rest;
          if pc >= newLoc {
            InterpretStopsAt(a, cie, program[1..], newLoc, rules, pc);
          }
        }
      } else {
        var r := Apply(a, cie, rules, program[0]);
        if r.Ok? {
          InterpretStopsAt(a, cie, program[1..], loc, r.value, pc);
        }
      }
    }
  }

  /** No location turns back to one that the entry, which ends at end, covers: a row before an
      earlier row that lies past the start lies past the end. */
  ghost predicate TurnsBackOnlyPast(rows: seq<Row>, end: Word) {
    forall i, j :: 0 <= i <= j < |rows| && rows[0].loc < rows[i].loc && rows[j].loc < rows[i].loc ==> end < rows[j].loc
  }

  /** What the scan finds: a row at most pc with none behind it. */
  lemma {:induction false} LookupMeans(rows: seq<Row>, pc: Word)
    ensures match Lookup(rows, pc)
      case Some(n) => rows[n].loc <= pc && forall j :: n < j < |rows| ==> pc < rows[j].loc
      case None => forall j :: 0 <= j < |rows| ==> pc < rows[j].loc
  {
    if rows != [] {
      LookupMeans(rows[1..], pc);
      forall j | 0 < j < |rows| ensures rows[j] == rows[1..][j - 1] {
      }
    }
  }

  /** What the early exit finds: a row with all rows up to it at most pc, and the next past it. */
  lemma {:induction false} StopAtMeans(rows: seq<Row>, pc: Word)
    requires rows != [] && rows[0].loc <= pc
    ensures var n := StopAt(rows, pc);
      && (forall j :: 0 <= j <= n ==> rows[j].loc <= pc)
      && (n + 1 < |rows| ==> pc < rows[n + 1].loc)
  {
    if |rows| > 1 && rows[1].loc <= pc {
      StopAtMeans(rows[1..], pc);
      forall j | 0 < j < |rows| ensures rows[j] == rows[1..][j - 1] {
      }
    }
  }

  /** The early exit finds the same row as the scan of the whole table at every pc up to end
      exactly when no location turns back to one up to end. */
  lemma EarlyExitIsExact(rows: seq<Row>, end: Word)
    requires rows != [] && rows[0].loc <= end
    ensures (forall pc: Word :: rows[0].loc <= pc <= end ==> Lookup(rows, pc) == Some(StopAt(rows, pc)))
      <==> TurnsBackOnlyPast(rows, end)
  {
    hide Lookup, StopAt;
    if TurnsBackOnlyPast(rows, end) {
      forall pc: Word | rows[0].loc <= pc <= end ensures Lookup(rows, pc) == Some(StopAt(rows, pc)) {
        LookupMeans(rows, pc);
        StopAtMeans(rows, pc);
        var n := StopAt(rows, pc);
        forall j | n < j < |rows| ensures pc < rows[j].loc {
          assert rows[0].loc < rows[n + 1].loc;
        }
        assert rows[n].loc <= pc;
      }
    } else {
      var i, j :| 0 <= i <= j < |rows| && rows[0].loc < rows[i].loc && rows[j].loc < rows[i].loc && rows[j].loc <= end;
      var pc := if rows[0].loc <= rows[j].loc then rows[j].loc else rows[0].loc;
      LookupMeans(rows, pc);
      StopAtMeans(rows, pc);
      assert StopAt(rows, pc) < i && j <= Lookup(rows, pc).value;
    }
  }

  /** The sum of all advances of a program. */
  function Extent(cie: CIE, program: seq<CFA>): int {
    if program == [] then 0
    else if IsAdvance(program[0]) then
      match Delta(cie, program[0])
      case Err(_) => 0
      case Ok(delta) => delta + Extent(cie, program[1..])
    else Extent(cie, program[1..])
  }

  /** Operands as parsing leaves them: unsigned ones are not negative. */
  predicate Parsed(program: seq<CFA>) {
    forall i :: 0 <= i < |program| && program[i].op1.Unsigned? ==> program[i].op1.u >= 0
  }

  lemma {:induction false} ExtentIsNatural(cie: CIE, program: seq<CFA>)
    requires Parsed(program)
    ensures Extent(cie, program) >= 0
    ensures program != [] && IsAdvance(program[0]) && Delta(cie, program[0]).Ok? ==> Delta(cie, program[0]).value >= 0
  {
    if program != [] {
      hide Delta, IsAdvance;
      ExtentIsNatural(cie, program[1..]);
      if IsAdvance(program[0]) {
        DeltaIsNatural(cie, program[0]);
      }
    }
  }

  lemma DeltaIsNatural(cie: CIE, i: CFA)
    requires IsAdvance(i) && (i.op1.Unsigned? ==> i.op1.u >= 0)
    ensures Delta(cie, i).Ok? ==> Delta(cie, i).value >= 0
  {
    if ADVANCE_LOC_DELTA0 <= i.op <= ADVANCE_LOC_DELTA63 {
      ProductIsNatural(i.op - ADVANCE_LOC_DELTA0, cie.codeAlign);
    } else if i.op1.Unsigned? {
      ProductIsNatural(i.op1.u, cie.codeAlign);
    }
  }

  lemma ProductIsNatural(a: nat, b: nat)
    ensures a * b >= 0
  {
  }

  lemma OrderedFrom(r: Row, rows: seq<Row>)
    requires Ordered(rows) && (rows != [] ==> r.loc <= rows[0].loc)
    ensures Ordered([r] + rows)
  {
  }

  lemma OrderedNeverTurnsBack(rows: seq<Row>, end: Word)
    requires Ordered(rows)
    ensures TurnsBackOnlyPast(rows, end)
  {
  }

  /** While a program stays inside the address space its locations never decrease. */
  lemma {:induction false} TableIsOrdered(a: Arch, cie: CIE, program: seq<CFA>, loc: Word, rules: Rules)
    requires Parsed(program) && loc + Extent(cie, program) < WORD_SIZE
    ensures Ordered(Table(a, cie, program, loc, rules))
  {
    hide Ordered, Delta, Apply, IsAdvance;
    var rows := Table(a, cie, program, loc, rules);
    if program == [] {
      SingleIsOrdered(rows);
    } else {
      ExtentIsNatural(cie, program);
      ExtentIsNatural(cie, program[1..]);
      if IsAdvance(program[0]) {
        var delta := Delta(cie, program[0]);
        if delta.Ok? {
          TableIsOrdered(a, cie, program[1..], loc + delta.value, rules);
          OrderedFrom(Row(loc, Ok(rules)), Table(a, cie, program[1..], loc + delta.value, rules));
        } else {
          SingleIsOrdered(rows);
        }
      } else {
        var r := Apply(a, cie, rules, program[0]);
        if r.Ok? {
          TableIsOrdered(a, cie, program[1..], loc, r.value);
        } else {
          SingleIsOrdered(rows);
        }
      }
    }
  }

  lemma SingleIsOrdered(rows: seq<Row>)
    requires |rows| == 1
    ensures Ordered(rows)
  {
  }

  /** For every pc that the entry contains, unwindInfo gives the rules, or the failure, of the
      last row before the first one past pc.  That is the last row of the full table whose
      location is at most pc, for all of them, exactly when no location turns back into the
      entry; none does while the program stays inside the address space. */
  lemma UnwindInfoIsTableLookup(a: Arch, fde: FDE)
    requires fde.startAddr <= fde.endAddr
    ensures var rows := Table(a, fde.cie, fde.Program(), fde.startAddr, map[]);
      && (forall pc: Word :: fde.startAddr <= pc <= fde.endAddr ==>
           Interpret(a, fde.cie, fde.Program(), fde.startAddr, map[], pc) == rows[StopAt(rows, pc)])
      && ((forall pc: Word :: fde.startAddr <= pc <= fde.endAddr ==> Lookup(rows, pc) == Some(StopAt(rows, pc)))
           <==> TurnsBackOnlyPast(rows, fde.endAddr))
      && (Parsed(fde.Program()) && fde.startAddr + Extent(fde.cie, fde.Program()) < WORD_SIZE ==>
           TurnsBackOnlyPast(rows, fde.endAddr))
  {
    hide Interpret, Table, Lookup, StopAt, TurnsBackOnlyPast, Extent, Parsed;
    var rows := Table(a, fde.cie, fde.Program(), fde.startAddr, map[]);
    forall pc: Word | fde.startAddr <= pc <= fde.endAddr
      ensures Interpret(a, fde.cie, fde.Program(), fde.startAddr, map[], pc) == rows[StopAt(rows, pc)]
    {
      InterpretStopsAt(a, fde.cie, fde.Program(), fde.startAddr, map[], pc);
    }
    EarlyExitIsExact(rows, fde.endAddr);
    if Parsed(fde.Program()) && fde.startAddr + Extent(fde.cie, fde.Program()) < WORD_SIZE {
      TableIsOrdered(a, fde.cie, fde.Program(), fde.startAddr, map[]);
      OrderedNeverTurnsBack(rows, fde.endAddr);
    }
  }

  /** An entry that the readers can yield, with a code alignment of 2^31 as ExtractULEB128 reads
      it, at which unwindInfo goes wrong: the third of its instructions takes the location back
      below where the first has left it, and the rule of the second is not seen. */
  lemma WrapDefeatsEarlyExit()
    ensures exists a: Arch, fde: FDE, pc: Word ::
      var rows := Table(a, fde.cie, fde.Program(), fde.startAddr, map[]);
      && Leb128.UnsignedAsRead(0x8000_0000) == Ok(fde.cie.codeAlign) && fde.startAddr <= pc <= fde.endAddr
      && Lookup(rows, pc).Some?
      && rows[Lookup(rows, pc).value] != Interpret(a, fde.cie, fde.Program(), fde.startAddr, map[], pc)
  {
    var align: Word, back: Word := WORD_SIZE - 0x8000_0000, WORD_SIZE - 0x1_0000_0000;
    var cie := CIE(align, 1, 16, []);
    var step := CFA(ADVANCE_LOC_DELTA0 + 1, NoAttr, NoAttr);
    var def := CFA(DEF_CFA, Unsigned(7), Unsigned(8));
    var p := [step, def, step];
    var fde := FDE(cie, 0, back, p);
    assert fde.Program() == p;
    assert p[1..] == [def, step] && p[1..][1..] == [step] && p[1..][1..][1..] == [];
    var rules := Apply(X86_64, cie, map[], def).value;
    assert CFA_KEY in rules;
    assert Add(0, align) == align && Add(align, align) == back;
    var t := Table(X86_64, cie, p, 0, map[]);
    assert Table(X86_64, cie, [step], align, rules) == [Row(align, Ok(rules)), Row(back, Ok(rules))];
    assert t[1..] == Table(X86_64, cie, [def, step], align, map[]);
    assert t[1..] == Table(X86_64, cie, [step], align, rules);
    assert t[1..][1..] == [Row(back, Ok(rules))];
    assert Lookup(t[1..][1..], back) == Some(0);
    assert Lookup(t, back) == Some(2) && t[2] == Row(back, Ok(rules));
    assert Interpret(X86_64, cie, p, 0, map[], back) == Row(0, Ok(map[]));
    assert Leb128.UnsignedAsRead(0x8000_0000) == Ok(align);
    assert fde.startAddr <= back <= fde.endAddr;
  }

  /** What every rule set built by the interpreter looks like. */
  ghost predicate WellFormed(a: Arch, rules: Rules) {
    forall k :: k in rules ==>
      && rules[k].op.Signed?
      && if k == CFA_KEY then rules[k].kind == RuleValOffset
         else rules[k].kind == RuleOffset && (k == RA_KEY || exists reg: int :: RegName(a, reg) == Some(k))
  }

  lemma {:induction false} InterpretIsWellFormed(a: Arch, cie: CIE, program: seq<CFA>, loc: Word, rules: Rules,
                                                 pc: Word)
    requires WellFormed(a, rules)
    ensures var r := Interpret(a, cie, program, loc, rules, pc).rules;
      r.Ok? ==> WellFormed(a, r.value)
  {
    if program != [] {
      if IsAdvance(program[0]) {
        var delta := Delta(cie, program[0]);
        if delta.Ok? && pc >= Add(loc, delta.value) {
          InterpretIsWellFormed(a, cie, program[1..], Add(loc, delta.value), rules, pc);
        }
      } else {
        var r := Apply(a, cie, rules, program[0]);
        if r.Ok? {
          ApplyIsWellFormed(a, cie, rules, program[0]);
          InterpretIsWellFormed(a, cie, program[1..], loc, r.value, pc);
        }
      }
    }
  }

  lemma ApplyIsWellFormed(a: Arch, cie: CIE, rules: Rules, i: CFA)
    requires WellFormed(a, rules) && Apply(a, cie, rules, i).Ok?
    ensures WellFormed(a, Apply(a, cie, rules, i).value)
  {
    var r := Apply(a, cie, rules, i).value;
    if OFFSET_REG0 <= i.op <= OFFSET_REG63 && i.op - OFFSET_REG0 != cie.raCol {
      NamesAreNoKeys(a, i.op - OFFSET_REG0);
    }
  }

  lemma NamesAreNoKeys(a: Arch, reg: int)
    ensures RegName(a, reg).Some? ==> |RegName(a, reg).value| >= 2 && RegName(a, reg).value != CFA_KEY
  {
  }

  /** Section 6.4.2.2: def_cfa is def_cfa_register and def_cfa_offset together, in either order,
      wherever a frame address rule exists. */
  lemma DefCfaIsRegisterAndOffset(a: Arch, cie: CIE, rules: Rules, reg: int, offset: int)
    requires CFA_KEY in rules && RegName(a, reg).Some?
    ensures var r, o := CFA(0x0d, Unsigned(reg), NoAttr), CFA(0x0e, Unsigned(offset), NoAttr);
      var both := Apply(a, cie, rules, CFA(0x0c, Unsigned(reg), Unsigned(offset)));
      && Apply(a, cie, rules, r).Ok? && Apply(a, cie, rules, o).Ok? && both.Ok?
      && Apply(a, cie, Apply(a, cie, rules, r).value, o) == both
      && Apply(a, cie, Apply(a, cie, rules, o).value, r) == both
  {
    var name, op := RegName(a, reg).value, Signed(ToSigned(offset));
    var both := RegRule(RuleValOffset, name, op);
    var byRegister := RegRule(RuleValOffset, name, rules[CFA_KEY].op);
    var byOffset := RegRule(RuleValOffset, rules[CFA_KEY].reg, op);
    assert rules[CFA_KEY := byRegister][CFA_KEY := both] == rules[CFA_KEY := both];
    assert rules[CFA_KEY := byOffset][CFA_KEY := both] == rules[CFA_KEY := both];
  }

  /** An offset instruction changes the rule of its own register only. */
  lemma ApplyOffset(a: Arch, cie: CIE, rules: Rules, reg: nat, factored: int)
    requires reg < 64 && (reg == cie.raCol || RegName(a, reg).Some?)
    ensures var key := if reg == cie.raCol then RA_KEY else RegName(a, reg).value;
      Apply(a, cie, rules, CFA(0x80 + reg, Unsigned(factored), NoAttr))
        == Ok(rules[key := RegRule(RuleOffset, key, Signed(ToSigned(factored * cie.dataAlign)))])
  {
  }

  /** Section 6.4.2.1: advance_loc by the low six bits of 0x40 to 0x7f, and advance_loc1, 2 and 4
      by their operand, end the row and move the location by that many code alignments; the
      interpreter goes on only up to pc. */
  lemma AdvanceMovesLocation(a: Arch, cie: CIE, i: CFA, n: int, rest: seq<CFA>, loc: Word, rules: Rules)
    requires (0x40 <= i.op <= 0x7f && n == i.op - 0x40) || (i.op in {0x02, 0x03, 0x04} && i.op1 == Unsigned(n))
    ensures var next := Add(loc, n * cie.codeAlign);
      && Table(a, cie, [i] + rest, loc, rules) == [Row(loc, Ok(rules))] + Table(a, cie, rest, next, rules)
      && forall pc: Word :: Interpret(a, cie, [i] + rest, loc, rules, pc) ==
           if next <= pc then Interpret(a, cie, rest, next, rules, pc) else Row(loc, Ok(rules))
  {
    assert ([i] + rest)[1..] == rest;
  }

  /** Any other instruction stays in the row: it changes the rules or fails. */
  lemma OthersStayInRow(a: Arch, cie: CIE, i: CFA, rest: seq<CFA>, loc: Word, rules: Rules, pc: Word)
    requires !(0x40 <= i.op <= 0x7f) && i.op !in {0x02, 0x03, 0x04}
    ensures match Apply(a, cie, rules, i)
      case Ok(r) =>
        && Table(a, cie, [i] + rest, loc, rules) == Table(a, cie, rest, loc, r)
        && Interpret(a, cie, [i] + rest, loc, rules, pc) == Interpret(a, cie, rest, loc, r, pc)
      case Err(e) =>
        && Table(a, cie, [i] + rest, loc, rules) == [Row(loc, Err(e))]
        && Interpret(a, cie, [i] + rest, loc, rules, pc) == Row(loc, Err(e))
  {
    assert ([i] + rest)[1..] == rest;
  }

  /** Apart from the advances, nop (0x00), def_cfa, def_cfa_register and def_cfa_offset (0x0c to
      0x0e) and offset (0x80 to 0xbf) are handled, and nothing else. */
  lemma HandledExactly(a: Arch, cie: CIE, rules: Rules, i: CFA)
    requires !(0x40 <= i.op <= 0x7f) && i.op !in {0x02, 0x03, 0x04}
    ensures Apply(a, cie, rules, i) == Err(Unhandled) <==>
      i.op != 0x00 && !(0x0c <= i.op <= 0x0e) && !(0x80 <= i.op <= 0xbf)
    ensures i.op == 0x00 ==> Apply(a, cie, rules, i) == Ok(rules)
  {
  }
}
