/** CFA::parseCFA and the loop that reads all instructions of a frame entry, against the
    encodings of section 7.23 of DWARF version 4. */
module CfaCodec {
  import opened Machine
  import opened Cfa
  import opened Leb128

  datatype ParseError = Leb(error: LebError) | AddressSize | UnknownCfa | ReachedEof

  /** convert_cfa: a byte that names no instruction becomes DW_CFA_NULL, which is the same
      value as DW_CFA_nop. */
  function Convert(b: Byte): Byte {
    if b <= VAL_EXPRESSION || b == GNU_ARGS_SIZE || b == GNU_NEGATIVE_OFFSET_EXTENDED || b >= ADVANCE_LOC_DELTA0
    then b else NOP
  }

  function UnsignedOperand(data: seq<Byte>, pos: nat): Read<Result<Attr, ParseError>> {
    var r := ReadUnsigned(data, pos, Some(0), 0);
    Read(match r.value case Ok(v) => Ok(Unsigned(v)) case Err(e) => Err(Leb(e)), r.pos)
  }

  function SignedOperand(data: seq<Byte>, pos: nat): Read<Result<Attr, ParseError>> {
    var r := ReadSigned(data, pos, Some(0), 0);
    Read(match r.value case Ok(i) => Ok(Signed(i)) case Err(e) => Err(Leb(e)), r.pos)
  }

  function BytesAt(data: seq<Byte>, pos: nat, n: nat): (bytes: seq<Byte>)
    ensures |bytes| == n
  {
    seq<Byte>(n, i requires 0 <= i < n => ByteAt(data, pos + i))
  }

  /** ExtractExprLoc: a length and that many bytes. */
  function BlockOperand(data: seq<Byte>, pos: nat): Read<Result<Attr, ParseError>> {
    var r := ReadUnsigned(data, pos, Some(0), 0);
    match r.value
    case Ok(n) => Read(Ok(Buffer(BytesAt(data, r.pos, n))), r.pos + n)
    case Err(e) => Read(Err(Leb(e)), r.pos)
  }

  /** The little-endian value of bytes. */
  function LittleEndian(bytes: seq<Byte>): nat {
    if bytes == [] then 0 else bytes[0] + 0x100 * LittleEndian(bytes[1..])
  }

  function FixedOperand(data: seq<Byte>, pos: nat, n: nat): Read<Result<Attr, ParseError>> {
    Read(Ok(Unsigned(LittleEndian(BytesAt(data, pos, n)))), pos + n)
  }

  function One(op: Byte, r: Read<Result<Attr, ParseError>>): Read<Result<CFA, ParseError>> {
    Read(match r.value case Ok(a) => Ok(CFA(op, a, NoAttr)) case Err(e) => Err(e), r.pos)
  }

  function Two(op: Byte, first: Attr, r: Read<Result<Attr, ParseError>>): Read<Result<CFA, ParseError>> {
    Read(match r.value case Ok(a) => Ok(CFA(op, first, a)) case Err(e) => Err(e), r.pos)
  }

  /** parseCFA, branch by branch. */
  function ParseCFA(data: seq<Byte>, pos: nat): Read<Result<CFA, ParseError>> {
    var op := Convert(ByteAt(data, pos));
    var p := pos + 1;
    if ADVANCE_LOC_DELTA0 <= op <= ADVANCE_LOC_DELTA63 || op >= RESTORE_REG0 || op == NOP ||
       op == REMEMBER_STATE || op == RESTORE_STATE then Read(Ok(CFA(op, NoAttr, NoAttr)), p)
    else if OFFSET_REG0 <= op <= OFFSET_REG63 || op == RESTORE_EXTENDED || op == UNDEFINED ||
      op == SAME_VALUE || op == DEF_CFA_REGISTER || op == DEF_CFA_OFFSET || op == GNU_ARGS_SIZE then
      One(op, UnsignedOperand(data, p))
    else if op == OFFSET_EXTENDED_SF || op == DEF_CFA_SF || op == VAL_OFFSET_SF then
      var first := UnsignedOperand(data, p);
      if first.value.Err? then Read(Err(first.value.error), first.pos)
      else Two(op, first.value.value, SignedOperand(data, first.pos))
    else if op == DEF_CFA_OFFSET_SF then One(op, SignedOperand(data, p))
    else if op == DEF_CFA_EXPRESSION then One(op, BlockOperand(data, p))
    else if op == EXPRESSION || op == VAL_EXPRESSION then
      var first := UnsignedOperand(data, p);
      if first.value.Err? then Read(Err(first.value.error), first.pos)
      else Two(op, first.value.value, BlockOperand(data, first.pos))
    else if op == SET_LOC then Read(Err(AddressSize), p)
    else if op == ADVANCE_LOC1 then One(op, FixedOperand(data, p, 1))
    else if op == ADVANCE_LOC2 then One(op, FixedOperand(data, p, 2))
    else if op == ADVANCE_LOC4 then One(op, FixedOperand(data, p, 4))
    else if op == OFFSET_EXTENDED || op == DEF_CFA || op == REGISTER || op == VAL_OFFSET then
      var first := UnsignedOperand(data, p);
      if first.value.Err? then Read(Err(first.value.error), first.pos)
      else Two(op, first.value.value, UnsignedOperand(data, first.pos))
    else Read(Err(UnknownCfa), p)
  }

  lemma ParseAdvances(data: seq<Byte>, pos: nat)
    ensures ParseCFA(data, pos).pos > pos
  {
    forall q: nat
      ensures ReadUnsigned(data, q, Some(0), 0).pos > q && ReadSigned(data, q, Some(0), 0).pos > q
    {
      ReadsAtMostElevenBytes(data, q, Some(0), 0);
    }
  }

  /** The instructions from pos to last; running past either end throws. */
  function ParseAll(data: seq<Byte>, pos: nat, last: nat): Result<seq<CFA>, ParseError>
    decreases |data| - pos
  {
    if pos == last && pos <= |data| then Ok([])
    else if pos > |data| || pos > last then Err(ReachedEof)
    else
      var r := ParseCFA(data, pos);
      ParseAdvances(data, pos);
      match r.value
      case Err(e) => Err(e)
      case Ok(i) =>
        match ParseAll(data, r.pos, last)
        case Err(e) => Err(e)
        case Ok(rest) => Ok([i] + rest)
  }

  /** Reading succeeds only when the last instruction ends exactly at the end that the entry's
      length gives, and that lies in the section. */
  lemma {:induction false} ReadsToTheEnd(data: seq<Byte>, pos: nat, last: nat)
    ensures ParseAll(data, pos, last).Ok? ==> pos <= last <= |data|
    ensures ParseAll(data, pos, last) == Ok([]) <==> pos == last <= |data|
    decreases |data| - pos
  {
    hide ParseCFA;
    if pos < last && pos <= |data| && ParseCFA(data, pos).value.Ok? {
      ParseAdvances(data, pos);
      ReadsToTheEnd(data, ParseCFA(data, pos).pos, last);
    }
  }

  /** The loop in the constructor of Frames, over the instructions of one entry. */
  method ReadInstructions(data: seq<Byte>, start: nat, last: nat) returns (cfas: Result<seq<CFA>, ParseError>)
    ensures cfas == ParseAll(data, start, last)
  {
    var pos := start;
    var read: seq<CFA> := [];
    assert forall rest: seq<CFA> :: read + rest == rest;
    while !(pos == last && pos <= |data|)
      invariant ParseAll(data, start, last) ==
        match ParseAll(data, pos, last)
        case Err(e) => Err(e)
        case Ok(rest) => Ok(read + rest)
      decreases |data| + 1 - pos
    {
      if pos > |data| || pos > last { return Err(ReachedEof); }
      var r := ParseCFA(data, pos);
      ParseAdvances(data, pos);
      if r.value.Err? { return Err(r.value.error); }
      assert forall rest: seq<CFA> :: read + ([r.value.value] + rest) == read + [r.value.value] + rest;
      read := read + [r.value.value];
      pos := r.pos;
    }
    assert read + [] == read;
    return Ok(read);
  }

  // ---------------------------------------------------------------------------------------
  // Section 7.23: operands and encodings

  datatype Operand = Uleb | Sleb | Block | Fixed(size: nat)

  /** The operands of each instruction, from the table of section 7.23 (figure 40) and, for
      GNU_args_size, the GNU extension. */
  function Operands(op: Byte): Option<seq<Operand>> {
    if op >= ADVANCE_LOC_DELTA0 then Some(if OFFSET_REG0 <= op <= OFFSET_REG63 then [Uleb] else [])
    else if op in {NOP, REMEMBER_STATE, RESTORE_STATE} then Some([])
    else if op == ADVANCE_LOC1 then Some([Fixed(1)])
    else if op == ADVANCE_LOC2 then Some([Fixed(2)])
    else if op == ADVANCE_LOC4 then Some([Fixed(4)])
    else if op in {RESTORE_EXTENDED, UNDEFINED, SAME_VALUE, DEF_CFA_REGISTER, DEF_CFA_OFFSET, GNU_ARGS_SIZE} then
      Some([Uleb])
    else if op in {OFFSET_EXTENDED, REGISTER, DEF_CFA, VAL_OFFSET} then Some([Uleb, Uleb])
    else if op in {OFFSET_EXTENDED_SF, DEF_CFA_SF, VAL_OFFSET_SF} then Some([Uleb, Sleb])
    else if op == DEF_CFA_OFFSET_SF then Some([Sleb])
    else if op == DEF_CFA_EXPRESSION then Some([Block])
    else if op in {EXPRESSION, VAL_EXPRESSION} then Some([Uleb, Block])
    else None
  }

  /** 256 to the power of a fixed operand's size. */
  function FixedLimit(size: nat): nat {
    if size == 0 then 1 else 0x100 * FixedLimit(size - 1)
  }

  /** A value that the operand can encode. */
  predicate Encodes(o: Operand, a: Attr) {
    match o
    case Uleb => a.Unsigned? && 0 <= a.u < WORD_SIZE
    case Sleb => a.Signed? && -(WORD_SIZE / 2) <= a.i < WORD_SIZE / 2
    case Block => a.Buffer? && |a.bytes| < WORD_SIZE
    case Fixed(n) => a.Unsigned? && 0 <= a.u < FixedLimit(n)
  }

  predicate Encodable(i: CFA) {
    match Operands(i.op)
    case None => false
    case Some(os) =>
      (if |os| >= 1 then Encodes(os[0], i.op1) else i.op1 == NoAttr) &&
      (if |os| >= 2 then Encodes(os[1], i.op2) else i.op2 == NoAttr)
  }

  function EncodeFixed(v: nat, n: nat): seq<Byte> {
    if n == 0 then [] else [v % 0x100] + EncodeFixed(v / 0x100, n - 1)
  }

  function EncodeOperand(o: Operand, a: Attr): seq<Byte>
    requires Encodes(o, a)
  {
    match o
    case Uleb => EncodeUnsigned(a.u)
    case Sleb => EncodeSigned(a.i)
    case Block => EncodeUnsigned(|a.bytes|) + a.bytes
    case Fixed(n) => EncodeFixed(a.u, n)
  }

  function Encode(i: CFA): seq<Byte>
    requires Encodable(i)
  {
    var os := Operands(i.op).value;
    [i.op] + (if |os| >= 1 then EncodeOperand(os[0], i.op1) else [])
           + (if |os| >= 2 then EncodeOperand(os[1], i.op2) else [])
  }

  predicate AllEncodable(list: seq<CFA>) {
    list == [] || (Encodable(list[0]) && AllEncodable(list[1..]))
  }

  function EncodeAll(list: seq<CFA>): seq<Byte>
    requires AllEncodable(list)
  {
    if list == [] then [] else Encode(list[0]) + EncodeAll(list[1..])
  }

  /** A value that the readers return unchanged: the shift is made in a 32-bit int. */
  predicate ExactAttr(a: Attr) {
    match a
    case NoAttr => true
    case Unsigned(u) => u < INT_LIMIT
    case Signed(i) => -0x8000_0000 <= i < INT_LIMIT
    case Buffer(b) => |b| < INT_LIMIT
  }

  /** Fixed-size operands are always read exactly. */
  predicate Exact(i: CFA) {
    i.op == ADVANCE_LOC1 || i.op == ADVANCE_LOC2 || i.op == ADVANCE_LOC4 || (ExactAttr(i.op1) && ExactAttr(i.op2))
  }

  predicate AllExact(list: seq<CFA>) {
    list == [] || (Exact(list[0]) && AllExact(list[1..]))
  }

  // ---------------------------------------------------------------------------------------
  // Round trip

  function ReadOperand(o: Operand, data: seq<Byte>, pos: nat): Read<Result<Attr, ParseError>> {
    match o
    case Uleb => UnsignedOperand(data, pos)
    case Sleb => SignedOperand(data, pos)
    case Block => BlockOperand(data, pos)
    case Fixed(n) => FixedOperand(data, pos, n)
  }

  lemma StandsAtConcat(a: seq<Byte>, b: seq<Byte>, data: seq<Byte>, pos: nat)
    requires StandsAt(a + b, data, pos)
    ensures StandsAt(a, data, pos) && StandsAt(b, data, pos + |a|)
  {
    var whole := data[pos..pos + |a + b|];
    assert whole[..|a|] == a && whole[|a|..] == b;
    assert data[pos..pos + |a|] == whole[..|a|];
    assert data[pos + |a|..pos + |a| + |b|] == whole[|a|..];
  }

  lemma StandsAtBytes(b: seq<Byte>, data: seq<Byte>, pos: nat)
    requires StandsAt(b, data, pos)
    ensures BytesAt(data, pos, |b|) == b
  {
    forall i | 0 <= i < |b| ensures BytesAt(data, pos, |b|)[i] == b[i] {
      assert data[pos..pos + |b|][i] == data[pos + i];
      assert BytesAt(data, pos, |b|)[i] == ByteAt(data, pos + i);
    }
  }

  lemma {:induction false} FixedRoundTrip(v: nat, n: nat)
    requires v < FixedLimit(n)
    ensures |EncodeFixed(v, n)| == n && LittleEndian(EncodeFixed(v, n)) == v
  {
    if n > 0 {
      FixedRoundTrip(v / 0x100, n - 1);
      assert EncodeFixed(v, n)[1..] == EncodeFixed(v / 0x100, n - 1);
    }
  }

  lemma OperandRoundTrip(o: Operand, a: Attr, data: seq<Byte>, pos: nat)
    requires Encodes(o, a) && StandsAt(EncodeOperand(o, a), data, pos)
    ensures var r := ReadOperand(o, data, pos);
      && (r.value == Ok(a) <==> ExactAttr(a) || o.Fixed?)
      && (r.value == Ok(a) ==> r.pos == pos + |EncodeOperand(o, a)|)
  {
    match o
    case Uleb => UnsignedRoundTrip(data, pos, a.u);
    case Sleb => SignedRoundTrip(data, pos, a.i);
    case Block =>
      var n := EncodeUnsigned(|a.bytes|);
      StandsAtConcat(n, a.bytes, data, pos);
      UnsignedRoundTrip(data, pos, |a.bytes|);
      StandsAtBytes(a.bytes, data, pos + |n|);
    case Fixed(n) =>
      FixedRoundTrip(a.u, n);
      StandsAtBytes(EncodeFixed(a.u, n), data, pos);
  }

  /** parseCFA reads operands as the table of section 7.23 lists them. */
  lemma ParseFollowsTable(i: CFA, data: seq<Byte>, pos: nat)
    requires Encodable(i) && pos < |data| && data[pos] == i.op
    ensures var os := Operands(i.op).value;
      var r := ParseCFA(data, pos);
      if os == [] then r == Read(Ok(CFA(i.op, NoAttr, NoAttr)), pos + 1)
      else
        var first := ReadOperand(os[0], data, pos + 1);
        if |os| == 1 then r == One(i.op, first)
        else if first.value.Err? then r.value.Err?
        else r == Two(i.op, first.value.value, ReadOperand(os[1], data, first.pos))
  {
    hide UnsignedOperand, SignedOperand, BlockOperand, FixedOperand;
  }

  /** One instruction is read back, and exactly its bytes are consumed, precisely when its
      operands survive the 32-bit shift. */
  lemma InstructionRoundTrip(i: CFA, data: seq<Byte>, pos: nat)
    requires Encodable(i) && StandsAt(Encode(i), data, pos)
    ensures ParseCFA(data, pos).value == Ok(i) <==> Exact(i)
    ensures ParseCFA(data, pos).value == Ok(i) ==> ParseCFA(data, pos).pos == pos + |Encode(i)|
  {
    hide ParseCFA, ReadOperand, EncodeOperand, Encodes;
    var os := Operands(i.op).value;
    var e1 := if |os| >= 1 then EncodeOperand(os[0], i.op1) else [];
    var e2 := if |os| >= 2 then EncodeOperand(os[1], i.op2) else [];
    assert Encode(i) == [i.op] + e1 + e2;
    StandsAtConcat([i.op] + e1, e2, data, pos);
    StandsAtConcat([i.op], e1, data, pos);
    StandsAtRest([i.op], data, pos);
    ParseFollowsTable(i, data, pos);
    if |os| >= 1 {
      OperandRoundTrip(os[0], i.op1, data, pos + 1);
      if |os| >= 2 && ReadOperand(os[0], data, pos + 1).value == Ok(i.op1) {
        OperandRoundTrip(os[1], i.op2, data, pos + 1 + |e1|);
      }
    }
  }

  /** Any list of instructions is read back from the concatenation of its encodings, ending
      exactly at the end offset, precisely when every operand survives the 32-bit shift. */
  lemma {:induction false} ListRoundTrip(list: seq<CFA>, data: seq<Byte>, pos: nat)
    requires AllEncodable(list)
    requires StandsAt(EncodeAll(list), data, pos)
    ensures ParseAll(data, pos, pos + |EncodeAll(list)|) == Ok(list)
      <==> AllExact(list)
    decreases |list|
  {
    hide ParseAll, ParseCFA, Encode, Exact, StandsAt, Encodable;
    if list == [] {
      ParseNothing(data, pos);
    } else {
      var e, rest := Encode(list[0]), EncodeAll(list[1..]);
      assert EncodeAll(list) == e + rest;
      StandsAtConcat(e, rest, data, pos);
      InstructionRoundTrip(list[0], data, pos);
      ListRoundTrip(list[1..], data, pos + |e|);
      ListStep(list, data, pos);
    }
  }

  lemma ParseNothing(data: seq<Byte>, pos: nat)
    requires StandsAt([], data, pos)
    ensures ParseAll(data, pos, pos) == Ok([])
  {
  }

  lemma ListStep(list: seq<CFA>, data: seq<Byte>, pos: nat)
    requires list != [] && AllEncodable(list)
    requires StandsAt(EncodeAll(list), data, pos)
    ensures var last := pos + |EncodeAll(list)|;
      var r := ParseCFA(data, pos);
      ParseAll(data, pos, last) == Ok(list) <==>
        r.value == Ok(list[0]) && ParseAll(data, r.pos, last) == Ok(list[1..])
  {
    hide ParseCFA, Encode;
    assert |Encode(list[0])| > 0 by { EncodeNotEmpty(list[0]); }
    assert list == [list[0]] + list[1..];
  }

  lemma EncodeNotEmpty(i: CFA)
    requires Encodable(i)
    ensures |Encode(i)| > 0
  {
  }
}
