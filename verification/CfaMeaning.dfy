/** From the bytes of a frame entry to the registers of the caller: the numbers of figure 40 of
    section 7.23 of DWARF version 4, what they are read as, and what sections 6.4.2.1 to 6.4.2.3
    say they do. */
module CfaMeaning {
  import opened Machine
  import opened Cfa
  import opened Leb128
  import opened CfaCodec
  import Frame
  import Unwind

  /** What parseCFA reads for each byte, by number; one that names no instruction is read as nop. */
  lemma EveryByte(data: seq<Byte>, pos: nat)
    ensures var b, r := ByteAt(data, pos), ParseCFA(data, pos);
      var first := UnsignedOperand(data, pos + 1);
      if b in {0x00, 0x0a, 0x0b} || 0x40 <= b <= 0x7f || 0xc0 <= b then r == Read(Ok(CFA(b, NoAttr, NoAttr)), pos + 1)
      else if b in {0x06, 0x07, 0x08, 0x0d, 0x0e, 0x2e} || 0x80 <= b <= 0xbf then r == One(b, first)
      else if b in {0x02, 0x03, 0x04} then
        r == One(b, FixedOperand(data, pos + 1, if b == 0x02 then 1 else if b == 0x03 then 2 else 4))
      else if b in {0x05, 0x09, 0x0c, 0x10, 0x11, 0x12, 0x14, 0x15, 0x16} then
        if first.value.Err? then r == Read(Err(first.value.error), first.pos)
        else if b in {0x05, 0x09, 0x0c, 0x14} then
          r == Two(b, first.value.value, UnsignedOperand(data, first.pos))
        else if b in {0x11, 0x12, 0x15} then r == Two(b, first.value.value, SignedOperand(data, first.pos))
        else r == Two(b, first.value.value, BlockOperand(data, first.pos))
      else if b == 0x13 then r == One(b, SignedOperand(data, pos + 1))
      else if b == 0x0f then r == One(b, BlockOperand(data, pos + 1))
      else if b == 0x01 then r == Read(Err(AddressSize), pos + 1)
      else if b == 0x2f then r == Read(Err(UnknownCfa), pos + 1)
      else r == Read(Ok(CFA(0x00, NoAttr, NoAttr)), pos + 1)
  {
    hide UnsignedOperand, SignedOperand, BlockOperand, FixedOperand, One, Two;
  }

  /** The operands that a byte is read with are those the table lists for it. */
  lemma OperandsByNumber(b: Byte)
    ensures Operands(b) ==
      if b in {0x00, 0x0a, 0x0b} || 0x40 <= b <= 0x7f || 0xc0 <= b then Some([])
      else if b in {0x06, 0x07, 0x08, 0x0d, 0x0e, 0x2e} || 0x80 <= b <= 0xbf then Some([Uleb])
      else if b == 0x02 then Some([Fixed(1)])
      else if b == 0x03 then Some([Fixed(2)])
      else if b == 0x04 then Some([Fixed(4)])
      else if b in {0x05, 0x09, 0x0c, 0x14} then Some([Uleb, Uleb])
      else if b in {0x11, 0x12, 0x15} then Some([Uleb, Sleb])
      else if b in {0x10, 0x16} then Some([Uleb, Block])
      else if b == 0x13 then Some([Sleb])
      else if b == 0x0f then Some([Block])
      else None
  {
  }

  // ---------------------------------------------------------------------------------------
  // Locations

  lemma LittleEndianOfTwo(b: seq<Byte>)
    requires |b| == 2
    ensures LittleEndian(b) == b[0] as nat + 0x100 * (b[1] as nat)
  {
    LittleEndianOfOne(b[1..]);
  }

  lemma LittleEndianOfOne(b: seq<Byte>)
    requires |b| == 1
    ensures LittleEndian(b) == b[0]
  {
    assert b[1..] == [];
  }

  lemma LittleEndianOfFour(b: seq<Byte>)
    requires |b| == 4
    ensures LittleEndian(b) ==
      b[0] as nat + 0x100 * (b[1] as nat) + 0x1_0000 * (b[2] as nat) + 0x100_0000 * (b[3] as nat)
  {
    LittleEndianOfTwo(b[2..]);
    assert b[1..][1..] == b[2..];
  }

  /** The number of code alignments that an advance at pos in data moves by, and its length. */
  function Moves(data: seq<Byte>, pos: nat): (nat, nat) {
    var at := (k: nat) => ByteAt(data, pos + k);
    if at(0) == 0x02 then (at(1), 2)
    else if at(0) == 0x03 then (at(1) + 0x100 * at(2), 3)
    else if at(0) == 0x04 then (at(1) + 0x100 * at(2) + 0x1_0000 * at(3) + 0x100_0000 * at(4), 5)
    else (at(0) % 0x40, 1)
  }

  /** Section 6.4.2.1, from the bytes: the location moves by the little-endian number in one, two
      or four bytes, or in the low six bits, times the code alignment. */
  lemma AdvanceBytesMoveLocation(a: Arch, cie: Frame.CIE, data: seq<Byte>, pos: nat, rest: seq<CFA>, loc: Word,
                                 rules: Rules)
    requires ByteAt(data, pos) in {0x02, 0x03, 0x04} || 0x40 <= ByteAt(data, pos) <= 0x7f
    ensures var r := ParseCFA(data, pos);
      var (n, length) := Moves(data, pos);
      && r.value.Ok? && r.pos == pos + length
      && Frame.Table(a, cie, [r.value.value] + rest, loc, rules)
        == [Frame.Row(loc, Ok(rules))] + Frame.Table(a, cie, rest, Add(loc, n * cie.codeAlign), rules)
  {
    hide ParseCFA, Frame.Table, UnsignedOperand, Add;
    EveryByte(data, pos);
    var b := ByteAt(data, pos);
    if b == 0x02 {
      LittleEndianOfOne(BytesAt(data, pos + 1, 1));
    } else if b == 0x03 {
      LittleEndianOfTwo(BytesAt(data, pos + 1, 2));
    } else if b == 0x04 {
      LittleEndianOfFour(BytesAt(data, pos + 1, 4));
    }
    Frame.AdvanceMovesLocation(a, cie, ParseCFA(data, pos).value.value, Moves(data, pos).0, rest, loc, rules);
  }

  // ---------------------------------------------------------------------------------------
  // Rules

  /** What an entry says of one row. */
  datatype Note =
    | DefCfa(reg: nat, offset: nat)
    | DefCfaRegister(reg: nat)
    | DefCfaOffset(offset: nat)
    | Saved(reg: nat, factored: nat)
    | Nothing

  /** The key that a saved register's rule gets. */
  function KeyOf(a: Arch, cie: Frame.CIE, reg: int): Option<string> {
    if reg == cie.raCol then Some("ra") else RegName(a, reg)
  }

  /** The numbers can be read back exactly and the registers have names. */
  predicate Sayable(a: Arch, cie: Frame.CIE, n: Note) {
    match n
    case DefCfa(reg, offset) => reg < 0x8000_0000 && offset < 0x8000_0000 && RegName(a, reg).Some?
    case DefCfaRegister(reg) => reg < 0x8000_0000 && RegName(a, reg).Some?
    case DefCfaOffset(offset) => offset < 0x8000_0000
    case Saved(reg, factored) => reg < 64 && factored < 0x8000_0000 && KeyOf(a, cie, reg).Some?
    case Nothing => true
  }

  predicate AllSayable(a: Arch, cie: Frame.CIE, notes: seq<Note>) {
    notes == [] || (Sayable(a, cie, notes[0]) && AllSayable(a, cie, notes[1..]))
  }

  function Bytes(n: Note): seq<Byte>
    requires n.Saved? ==> n.reg < 64
  {
    match n
    case DefCfa(reg, offset) => [0x0c] + EncodeUnsigned(reg) + EncodeUnsigned(offset)
    case DefCfaRegister(reg) => [0x0d] + EncodeUnsigned(reg)
    case DefCfaOffset(offset) => [0x0e] + EncodeUnsigned(offset)
    case Saved(reg, factored) => [0x80 + reg] + EncodeUnsigned(factored)
    case Nothing => [0x00]
  }

  function AllBytes(a: Arch, cie: Frame.CIE, notes: seq<Note>): seq<Byte>
    requires AllSayable(a, cie, notes)
  {
    if notes == [] then [] else Bytes(notes[0]) + AllBytes(a, cie, notes[1..])
  }

  /** What is known of the frame: the register and offset of the frame address, and the factored
      offset at which each saved register lies. */
  datatype Known = Known(reg: nat, offset: nat, saved: map<string, nat>)

  function Learn(a: Arch, cie: Frame.CIE, k: Known, n: Note): Known
    requires Sayable(a, cie, n)
  {
    match n
    case DefCfa(reg, offset) => k.(reg := reg, offset := offset)
    case DefCfaRegister(reg) => k.(reg := reg)
    case DefCfaOffset(offset) => k.(offset := offset)
    case Saved(reg, factored) => k.(saved := k.saved[KeyOf(a, cie, reg).value := factored])
    case Nothing => k
  }

  function LearnAll(a: Arch, cie: Frame.CIE, k: Known, notes: seq<Note>): Known
    requires AllSayable(a, cie, notes)
    decreases |notes|
  {
    if notes == [] then k else LearnAll(a, cie, Learn(a, cie, k, notes[0]), notes[1..])
  }

  /** The instruction that the bytes of a note are read as. */
  function Instruction(n: Note): CFA
    requires n.Saved? ==> n.reg < 64
  {
    match n
    case DefCfa(reg, offset) => CFA(0x0c, Unsigned(reg), Unsigned(offset))
    case DefCfaRegister(reg) => CFA(0x0d, Unsigned(reg), NoAttr)
    case DefCfaOffset(offset) => CFA(0x0e, Unsigned(offset), NoAttr)
    case Saved(reg, factored) => CFA(0x80 + reg, Unsigned(factored), NoAttr)
    case Nothing => CFA(0x00, NoAttr, NoAttr)
  }

  function Instructions(a: Arch, cie: Frame.CIE, notes: seq<Note>): seq<CFA>
    requires AllSayable(a, cie, notes)
  {
    if notes == [] then [] else [Instruction(notes[0])] + Instructions(a, cie, notes[1..])
  }

  lemma BytesEncode(a: Arch, cie: Frame.CIE, n: Note)
    requires Sayable(a, cie, n)
    ensures var i := Instruction(n);
      Encodable(i) && Exact(i) && Encode(i) == Bytes(n)
  {
    hide RegName, EncodeUnsigned;
    OperandsByNumber(Instruction(n).op);
  }

  lemma {:induction false} AllBytesEncode(a: Arch, cie: Frame.CIE, notes: seq<Note>)
    requires AllSayable(a, cie, notes)
    ensures var p := Instructions(a, cie, notes);
      AllEncodable(p) && AllExact(p) && EncodeAll(p) == AllBytes(a, cie, notes)
  {
    if notes != [] {
      hide Encodable, Exact, Encode, Bytes, Sayable;
      BytesEncode(a, cie, notes[0]);
      AllBytesEncode(a, cie, notes[1..]);
      assert Instructions(a, cie, notes)[1..] == Instructions(a, cie, notes[1..]);
    }
  }

  /** Rules that say what is known, and nothing else. */
  ghost predicate Says(a: Arch, cie: Frame.CIE, rules: Rules, k: Known) {
    && RegName(a, k.reg).Some? && CFA_KEY !in k.saved
    && rules.Keys == {CFA_KEY} + k.saved.Keys
    && rules[CFA_KEY] == RegRule(RuleValOffset, RegName(a, k.reg).value, Signed(ToSigned(k.offset)))
    && forall s :: s in k.saved ==>
         s != PcName(a) && rules[s] == RegRule(RuleOffset, s, Signed(ToSigned(k.saved[s] * cie.dataAlign)))
  }

  lemma LearnSays(a: Arch, cie: Frame.CIE, rules: Rules, k: Known, n: Note)
    requires Sayable(a, cie, n) && Says(a, cie, rules, k)
    ensures var r := Frame.Apply(a, cie, rules, Instruction(n));
      r.Ok? && Says(a, cie, r.value, Learn(a, cie, k, n))
  {
    hide RegName, ToSigned, PcName;
    if n.Saved? {
      Frame.ApplyOffset(a, cie, rules, n.reg, n.factored);
      Frame.NamesAreNoKeys(a, n.reg);
      Unwind.NamesAreNoCounter(a, n.reg);
      RaIsNoCounter(a);
    }
  }

  lemma RaIsNoCounter(a: Arch)
    ensures "ra" != PcName(a)
  {
  }

  lemma {:induction false} InterpretLearns(a: Arch, cie: Frame.CIE, notes: seq<Note>, loc: Word, rules: Rules, k: Known,
                                           pc: Word)
    requires AllSayable(a, cie, notes) && Says(a, cie, rules, k)
    ensures var r := Frame.Interpret(a, cie, Instructions(a, cie, notes), loc, rules, pc);
      r.loc == loc && r.rules.Ok? && Says(a, cie, r.rules.value, LearnAll(a, cie, k, notes))
    decreases |notes|
  {
    if notes != [] {
      hide Frame.Interpret, Frame.Apply, Says, Sayable, Learn;
      var i, next := Instruction(notes[0]), Learn(a, cie, k, notes[0]);
      LearnSays(a, cie, rules, k, notes[0]);
      assert !(0x40 <= i.op <= 0x7f) && i.op !in {0x02, 0x03, 0x04};
      Frame.OthersStayInRow(a, cie, i, Instructions(a, cie, notes[1..]), loc, rules, pc);
      InterpretLearns(a, cie, notes[1..], loc, Frame.Apply(a, cie, rules, i).value, next, pc);
    } else {
      assert Frame.Interpret(a, cie, [], loc, rules, pc) == Frame.Row(loc, Ok(rules));
    }
  }

  /** The frame that is known gives the caller's registers. */
  ghost predicate GivesCaller(a: Arch, mem: Unwind.Memory, cie: Frame.CIE, rules: Rules, k: Known,
                              old_: Unwind.Registers)
  {
    && RegName(a, k.reg).Some? && Unwind.Applicable(rules)
    && var cfa := Add(Unwind.Get(old_, RegName(a, k.reg).value), k.offset);
       && Unwind.FrameAddress(a, rules, old_) == cfa
       && (SpName(a) !in k.saved ==> Unwind.Caller(a, mem, rules, old_, SpName(a)) == cfa)
       && (forall s :: s in k.saved && s != "ra" ==>
            Unwind.Caller(a, mem, rules, old_, s) == mem(Add(cfa, k.saved[s] * cie.dataAlign)))
       && ("ra" in k.saved ==>
            Unwind.Caller(a, mem, rules, old_, PcName(a)) ==
              Sub(mem(Add(cfa, k.saved["ra"] * cie.dataAlign)), if a.X86_64? then 1 else 4))
       && forall n :: n !in k.saved && n != SpName(a) && n != PcName(a) ==>
            Unwind.Caller(a, mem, rules, old_, n) == Unwind.Get(old_, n)
  }

  lemma SaysGivesCaller(a: Arch, mem: Unwind.Memory, cie: Frame.CIE, rules: Rules, k: Known, old_: Unwind.Registers)
    requires Says(a, cie, rules, k)
    ensures GivesCaller(a, mem, cie, rules, k, old_)
  {
    hide Add, Sub, ToSigned, RegName, Unwind.Get;
    var cfa := Add(Unwind.Get(old_, RegName(a, k.reg).value), k.offset);
    Unwind.AddSigned(Unwind.Get(old_, RegName(a, k.reg).value), k.offset);
    forall s | s in k.saved
      ensures Add(cfa, ToSigned(k.saved[s] * cie.dataAlign)) == Add(cfa, k.saved[s] * cie.dataAlign)
    {
      Unwind.AddSigned(cfa, k.saved[s] * cie.dataAlign);
    }
  }

  /** Sections 6.4.2.2 and 6.4.2.3, from the bytes: def_cfa (0x0c) followed by any mixture of it,
      def_cfa_register (0x0d), def_cfa_offset (0x0e), offset (0x80 to 0xbf) and nop (0x00) is read
      and interpreted; the frame address is the last register plus the last offset, a saved
      register is the word at the frame address plus its last factored offset, the program counter
      follows the return address less one instruction, and no other register changes. */
  lemma BytesGiveCaller(a: Arch, mem: Unwind.Memory, cie: Frame.CIE, reg: nat, offset: nat, notes: seq<Note>, loc: Word,
                        pc: Word, old_: Unwind.Registers)
    requires Sayable(a, cie, DefCfa(reg, offset)) && AllSayable(a, cie, notes)
    ensures var bytes := [0x0c] + EncodeUnsigned(reg) + EncodeUnsigned(offset) + AllBytes(a, cie, notes);
      var p := ParseAll(bytes, 0, |bytes|);
      && p.Ok?
      && var r := Frame.Interpret(a, cie, p.value, loc, map[], pc).rules;
         r.Ok? && GivesCaller(a, mem, cie, r.value, LearnAll(a, cie, Known(reg, offset, map[]), notes), old_)
  {
    hide Frame.Interpret, GivesCaller, Says, ParseAll, Frame.Apply;
    var first := DefCfa(reg, offset);
    var all := [first] + notes;
    assert all[1..] == notes;
    var bytes := AllBytes(a, cie, all);
    assert bytes == [0x0c] + EncodeUnsigned(reg) + EncodeUnsigned(offset) + AllBytes(a, cie, notes);
    var p := Instructions(a, cie, all);
    AllBytesEncode(a, cie, all);
    ListRoundTrip(p, bytes, 0);
    FirstSays(a, cie, reg, offset);
    var rules := Frame.Apply(a, cie, map[], Instruction(first)).value;
    Frame.OthersStayInRow(a, cie, Instruction(first), Instructions(a, cie, notes), loc, map[], pc);
    InterpretLearns(a, cie, notes, loc, rules, Known(reg, offset, map[]), pc);
    var r := Frame.Interpret(a, cie, p, loc, map[], pc).rules.value;
    SaysGivesCaller(a, mem, cie, r, LearnAll(a, cie, Known(reg, offset, map[]), notes), old_);
  }

  lemma FirstSays(a: Arch, cie: Frame.CIE, reg: nat, offset: nat)
    requires RegName(a, reg).Some?
    ensures var r := Frame.Apply(a, cie, map[], CFA(0x0c, Unsigned(reg), Unsigned(offset)));
      r.Ok? && Says(a, cie, r.value, Known(reg, offset, map[]))
  {
  }

  /** The start of the usual x86-64 entry, byte by byte: def_cfa r7 8, offset r16 1. */
  lemma UsualEntry(mem: Unwind.Memory, cie: Frame.CIE, loc: Word, pc: Word, old_: Unwind.Registers)
    requires cie.dataAlign == -8 && cie.raCol == 16
    ensures var p := ParseAll([0x0c, 0x07, 0x08, 0x90, 0x01], 0, 5);
      p == Ok([CFA(0x0c, Unsigned(7), Unsigned(8)), CFA(0x90, Unsigned(1), NoAttr)])
    ensures var p := [CFA(0x0c, Unsigned(7), Unsigned(8)), CFA(0x90, Unsigned(1), NoAttr)];
      var r := Frame.Interpret(X86_64, cie, p, loc, map[], pc).rules;
      var rsp := Unwind.Get(old_, "rsp");
      && r.Ok? && Unwind.Applicable(r.value)
      && Unwind.Caller(X86_64, mem, r.value, old_, "rsp") == Add(rsp, 8)
      && Unwind.Caller(X86_64, mem, r.value, old_, "rip") == Sub(mem(rsp), 1)
  {
    hide ParseAll, Frame.Interpret, GivesCaller;
    UsualNotes(cie);
    var notes := [Saved(16, 1)];
    var all := [DefCfa(7, 8)] + notes;
    var bytes, p := AllBytes(X86_64, cie, all), Instructions(X86_64, cie, all);
    AllBytesEncode(X86_64, cie, all);
    ListRoundTrip(p, bytes, 0);
    assert [0x0c] + EncodeUnsigned(7) + EncodeUnsigned(8) + AllBytes(X86_64, cie, notes) == bytes;
    BytesGiveCaller(X86_64, mem, cie, 7, 8, notes, loc, pc, old_);
    var k := LearnAll(X86_64, cie, Known(7, 8, map[]), notes);
    UsualRegisters(mem, cie, Frame.Interpret(X86_64, cie, p, loc, map[], pc).rules.value, old_);
  }

  lemma UsualNotes(cie: Frame.CIE)
    requires cie.raCol == 16
    ensures var notes := [Saved(16, 1)];
      var all := [DefCfa(7, 8)] + notes;
      && AllSayable(X86_64, cie, notes) && AllSayable(X86_64, cie, all)
      && AllBytes(X86_64, cie, all) == [0x0c, 0x07, 0x08, 0x90, 0x01]
      && AllBytes(X86_64, cie, notes) == [0x90, 0x01]
      && Instructions(X86_64, cie, all) == [CFA(0x0c, Unsigned(7), Unsigned(8)), CFA(0x90, Unsigned(1), NoAttr)]
      && LearnAll(X86_64, cie, Known(7, 8, map[]), notes) == Known(7, 8, map["ra" := 1])
  {
    var last, first := Saved(16, 1), DefCfa(7, 8);
    var notes, all := [last], [first] + [last];
    assert notes[1..] == [] && all[1..] == notes;
    assert RegName(X86_64, 7) == Some("rsp") && RegName(X86_64, 16) == Some("ra");
    assert Sayable(X86_64, cie, first) && Sayable(X86_64, cie, last) && AllSayable(X86_64, cie, []);
    assert AllSayable(X86_64, cie, notes) && AllSayable(X86_64, cie, all);
    assert AllBytes(X86_64, cie, []) == [] && Instructions(X86_64, cie, []) == [];
    assert AllBytes(X86_64, cie, notes) == [0x90] + [0x01] && Instructions(X86_64, cie, notes) == [Instruction(last)];
    assert AllBytes(X86_64, cie, all) == [0x0c] + [0x07] + [0x08] + ([0x90] + [0x01]);
    var k := Learn(X86_64, cie, Known(7, 8, map[]), last);
    assert LearnAll(X86_64, cie, k, []) == k;
  }

  lemma UsualRegisters(mem: Unwind.Memory, cie: Frame.CIE, rules: Rules, old_: Unwind.Registers)
    requires cie.dataAlign == -8 && GivesCaller(X86_64, mem, cie, rules, Known(7, 8, map["ra" := 1]), old_)
    ensures var rsp := Unwind.Get(old_, "rsp");
      && Unwind.Applicable(rules)
      && Unwind.Caller(X86_64, mem, rules, old_, "rsp") == Add(rsp, 8)
      && Unwind.Caller(X86_64, mem, rules, old_, "rip") == Sub(mem(rsp), 1)
  {
    hide Unwind.Caller;
    var rsp := Unwind.Get(old_, "rsp");
    assert RegName(X86_64, 7) == Some("rsp");
    assert Add(Add(rsp, 8), -8) == rsp;
  }
}
