/** The bytes of a line number program: what the loop of parseLineSection decodes them to, against
    the encodings of sections 6.2.5 and 7.22 of DWARF version 4. */
module LineCodec {
  import opened Machine
  import opened Leb128
  import opened LineMachine
  import CfaCodec

  datatype OpError = Leb(error: LebError) | NumBytes | InvalidFile | UnknownExtended | UnknownStandard | MissingOperand

  function Uleb(data: seq<Byte>, pos: nat): Read<Result<Word, LebError>> {
    ReadUnsigned(data, pos, Some(0), 0)
  }

  function Sleb(data: seq<Byte>, pos: nat): Read<Result<int, LebError>> {
    ReadSigned(data, pos, Some(0), 0)
  }

  lemma {:induction false} LittleEndianFits(b: seq<Byte>)
    ensures CfaCodec.LittleEndian(b) < CfaCodec.FixedLimit(|b|)
  {
    if b != [] {
      LittleEndianFits(b[1..]);
    }
  }

  /** A number of up to eight bytes; the source leaves it undefined where the section ends inside
      it, and no row is appended after that. */
  function Fixed(data: seq<Byte>, pos: nat, n: nat): Word
    requires n <= 8
  {
    var b := CfaCodec.BytesAt(data, pos, n);
    LittleEndianFits(b);
    FixedLimits(n);
    CfaCodec.LittleEndian(b)
  }

  lemma FixedLimits(n: nat)
    requires n <= 8
    ensures CfaCodec.FixedLimit(n) <= WORD_SIZE
    ensures CfaCodec.FixedLimit(2) == 0x1_0000 && CfaCodec.FixedLimit(8) == WORD_SIZE
  {
    assert CfaCodec.FixedLimit(2) == 0x1_0000;
    assert CfaCodec.FixedLimit(4) == 0x1_0000_0000;
    assert CfaCodec.FixedLimit(6) == 0x1_0000_0000_0000;
    assert CfaCodec.FixedLimit(8) == WORD_SIZE;
  }

  /** n unsigned numbers, one after the other. */
  function Ulebs(data: seq<Byte>, pos: nat, n: nat): (r: Read<Result<seq<Word>, LebError>>)
    ensures r.value.Ok? ==> |r.value.value| == n
    decreases n
  {
    if n == 0 then Read(Ok([]), pos)
    else
      var first := Uleb(data, pos);
      match first.value
      case Err(e) => Read(Err(e), first.pos)
      case Ok(v) =>
        var rest := Ulebs(data, first.pos, n - 1);
        Read(match rest.value case Ok(vs) => Ok([v] + vs) case Err(e) => Err(e), rest.pos)
  }

  /** Behind the NUL that ends a string, or behind the end of the section. */
  function StringEnd(data: seq<Byte>, pos: nat): (end: nat)
    ensures end > pos
    decreases |data| - pos
  {
    if pos < |data| && data[pos] != 0 then StringEnd(data, pos + 1) else pos + 1
  }

  function Lesser(a: nat, b: nat): nat {
    if a < b then a else b
  }

  /** define_file: a name that is not empty and three numbers. */
  function ParseFile(data: seq<Byte>, pos: nat): Read<Result<Op, OpError>> {
    if pos >= |data| then Read(Err(InvalidFile), pos)
    else if data[pos] == 0 then Read(Err(InvalidFile), pos + 1)
    else
      var numbers := Ulebs(data, StringEnd(data, pos), 3);
      var file := data[pos..Lesser(StringEnd(data, pos) - 1, |data|)];
      Read(match numbers.value
           case Ok(vs) => Ok(DefineFile(file, vs[0], vs[1], vs[2]))
           case Err(e) => Err(Leb(e)), numbers.pos)
  }

  /** An extended opcode: its length, of which only the low byte of the operand's size is used,
      its number and its operand. */
  function ParseExtended(data: seq<Byte>, pos: nat): Read<Result<Op, OpError>> {
    var length := Uleb(data, pos);
    if length.value.Err? then Read(Err(Leb(length.value.error)), length.pos)
    else
      var size: nat := (length.value.value + 0xff) % 0x100;
      var op := ByteAt(data, length.pos);
      var p := length.pos + 1;
      if op == 0x01 then Read(Ok(EndSequence), p)
      else if op == 0x02 then
        if size in {1, 2, 4, 8} then Read(Ok(SetAddress(Fixed(data, p, size))), p + size) else Read(Err(NumBytes), p)
      else if op == 0x03 then ParseFile(data, p)
      else if op == 0x04 then
        var d := Uleb(data, p);
        Read(match d.value case Ok(v) => Ok(SetDiscriminator(v)) case Err(e) => Err(Leb(e)), d.pos)
      else Read(Err(UnknownExtended), p)
  }

  /** The operation of a standard opcode with operands read as the header says. */
  function Standard(op: Byte, operands: seq<Word>): Result<Op, OpError> {
    if op in {0x02, 0x04, 0x05, 0x0c} && operands == [] then Err(MissingOperand)
    else
      match op
      case 0x01 => Ok(Copy)
      case 0x02 => Ok(AdvancePC(operands[0]))
      case 0x04 => Ok(SetFile(operands[0]))
      case 0x05 => Ok(SetColumn(operands[0]))
      case 0x06 => Ok(NegateStmt)
      case 0x07 => Ok(SetBasicBlock)
      case 0x08 => Ok(ConstAddPC)
      case 0x0a => Ok(SetPrologueEnd)
      case 0x0b => Ok(SetEpilogueBegin)
      case 0x0c => Ok(SetISA(operands[0]))
      case _ => Err(UnknownStandard)
  }

  /** A standard opcode; two have operands of their own kind. */
  function ParseStandard(op: Byte, length: Byte, data: seq<Byte>, pos: nat): Read<Result<Op, OpError>> {
    if op == 0x09 then FixedLimits(2); Read(Ok(FixedAdvancePC(Fixed(data, pos, 2))), pos + 2)
    else if op == 0x03 then
      var d := Sleb(data, pos);
      Read(match d.value case Ok(i) => Ok(AdvanceLineBy(i)) case Err(e) => Err(Leb(e)), d.pos)
    else
      var operands := Ulebs(data, pos, length);
      Read(match operands.value case Ok(vs) => Standard(op, vs) case Err(e) => Err(Leb(e)), operands.pos)
  }

  /** What the header says of the standard opcodes: the number of operands of each. */
  predicate HasLengths(h: Header, lengths: seq<Byte>) {
    h.opcodeBase <= |lengths| + 1
  }

  /** One turn of the loop. */
  function ParseOp(h: Header, lengths: seq<Byte>, data: seq<Byte>, pos: nat): Read<Result<Op, OpError>>
    requires HasLengths(h, lengths)
  {
    var b := ByteAt(data, pos);
    if b == 0 then ParseExtended(data, pos + 1)
    else if b >= h.opcodeBase then Read(Ok(Special(b)), pos + 1)
    else ParseStandard(b, lengths[b - 1], data, pos + 1)
  }

  lemma FixedIsEncodable(data: seq<Byte>, pos: nat)
    ensures Fixed(data, pos, 2) < 0x1_0000
  {
    LittleEndianFits(CfaCodec.BytesAt(data, pos, 2));
    FixedLimits(2);
  }

  lemma UlebAdvances(data: seq<Byte>, pos: nat)
    ensures Uleb(data, pos).pos > pos && Sleb(data, pos).pos > pos
  {
    ReadsAtMostElevenBytes(data, pos, Some(0), 0);
  }

  lemma {:induction false} UlebsAdvance(data: seq<Byte>, pos: nat, n: nat)
    ensures Ulebs(data, pos, n).pos >= pos
    decreases n
  {
    if n > 0 {
      UlebAdvances(data, pos);
      UlebsAdvance(data, Uleb(data, pos).pos, n - 1);
    }
  }

  lemma ParseOpAdvances(h: Header, lengths: seq<Byte>, data: seq<Byte>, pos: nat)
    requires HasLengths(h, lengths)
    ensures var r := ParseOp(h, lengths, data, pos);
      r.pos > pos && (r.value.Ok? ==> Encodable(h, r.value.value))
  {
    hide Uleb, Sleb, Ulebs, StringEnd, Fixed;
    UlebAdvances(data, pos + 1);
    FixedIsEncodable(data, pos + 1);
    var p := Uleb(data, pos + 1).pos + 1;
    UlebAdvances(data, p);
    UlebsAdvance(data, StringEnd(data, p), 3);
    if 0 < ByteAt(data, pos) < h.opcodeBase {
      UlebsAdvance(data, pos + 1, lengths[ByteAt(data, pos) - 1]);
    }
  }

  /** The operations decoded from pos on, and the exception that ends them, if one does: the loop
      stops at the end of the program, which the last operation may have passed, and at the end of
      the section. */
  function Program(h: Header, lengths: seq<Byte>, data: seq<Byte>, pos: nat, last: nat)
    : (p: (seq<Op>, Option<OpError>))
    requires HasLengths(h, lengths)
    ensures AllEncodable(h, p.0)
    decreases |data| - pos
  {
    if pos >= last || pos >= |data| then ([], None)
    else
      var r := ParseOp(h, lengths, data, pos);
      ParseOpAdvances(h, lengths, data, pos);
      match r.value
      case Err(e) => ([], Some(e))
      case Ok(o) =>
        var (ops, error) := Program(h, lengths, data, r.pos, last);
        assert ([o] + ops)[1..] == ops;
        ([o] + ops, error)
  }

  // ---------------------------------------------------------------------------------------
  // Encodings

  /** The standard opcode of an operation, and its operand if it has one. */
  function Number(o: Op): Option<(Byte, Option<Word>)> {
    match o
    case Copy => Some((0x01, None))
    case AdvancePC(n) => Some((0x02, Some(n)))
    case SetFile(f) => Some((0x04, Some(f)))
    case SetColumn(c) => Some((0x05, Some(c)))
    case NegateStmt => Some((0x06, None))
    case SetBasicBlock => Some((0x07, None))
    case ConstAddPC => Some((0x08, None))
    case SetPrologueEnd => Some((0x0a, None))
    case SetEpilogueBegin => Some((0x0b, None))
    case SetISA(i) => Some((0x0c, Some(i)))
    case _ => None
  }

  /** The operation has an encoding under the header, whose lengths are those of the standard. */
  predicate Writable(h: Header, lengths: seq<Byte>, o: Op)
    requires HasLengths(h, lengths)
  {
    match o
    case Special(op) => op > 0 && op >= h.opcodeBase
    case EndSequence => true
    case SetAddress(_) => true
    case SetDiscriminator(_) => true
    case DefineFile(file, _, _, _) => file != [] && 0 !in file && |file| < 0x4000_0000
    case AdvanceLineBy(d) => 0x03 < h.opcodeBase && -(WORD_SIZE / 2) <= d < WORD_SIZE / 2
    case FixedAdvancePC(d) => 0x09 < h.opcodeBase && d < 0x1_0000
    case _ =>
      var (n, operand) := Number(o).value;
      n < h.opcodeBase && lengths[n - 1] == if operand.Some? then 1 else 0
  }

  /** A file name and its three numbers. */
  function FileEntry(file: seq<Byte>, directory: Word, modified: Word, size: Word): seq<Byte> {
    file + [0] + EncodeUnsigned(directory) + EncodeUnsigned(modified) + EncodeUnsigned(size)
  }

  function Encode(h: Header, lengths: seq<Byte>, o: Op): seq<Byte>
    requires HasLengths(h, lengths) && Writable(h, lengths, o)
  {
    match o
    case Special(op) => [op]
    case EndSequence => [0x00] + EncodeUnsigned(1) + [0x01]
    case SetAddress(a) => [0x00] + EncodeUnsigned(9) + [0x02] + CfaCodec.EncodeFixed(a, 8)
    case SetDiscriminator(d) => [0x00] + EncodeUnsigned(1 + |EncodeUnsigned(d)|) + [0x04] + EncodeUnsigned(d)
    case AdvanceLineBy(d) => [0x03] + EncodeSigned(d)
    case FixedAdvancePC(d) => [0x09] + CfaCodec.EncodeFixed(d, 2)
    case DefineFile(file, d, m, n) =>
      var operand := FileEntry(file, d, m, n);
      [0x00] + EncodeUnsigned(1 + |operand|) + [0x03] + operand
    case _ =>
      var (n, operand) := Number(o).value;
      [n] + if operand.Some? then EncodeUnsigned(operand.value) else []
  }

  /** The operand survives the 32-bit shift of the readers. */
  predicate Exact(o: Op) {
    match o
    case SetDiscriminator(d) => d < 0x8000_0000
    case AdvanceLineBy(d) => -0x8000_0000 <= d < 0x8000_0000
    case AdvancePC(n) => n < 0x8000_0000
    case SetFile(f) => f < 0x8000_0000
    case SetColumn(c) => c < 0x8000_0000
    case SetISA(i) => i < 0x8000_0000
    case DefineFile(_, d, m, n) => d < 0x8000_0000 && m < 0x8000_0000 && n < 0x8000_0000
    case _ => true
  }

  // ---------------------------------------------------------------------------------------
  // Round trip

  lemma FixedRoundTrip(v: Word, n: nat, data: seq<Byte>, pos: nat)
    requires n <= 8 && v < CfaCodec.FixedLimit(n) && StandsAt(CfaCodec.EncodeFixed(v, n), data, pos)
    ensures |CfaCodec.EncodeFixed(v, n)| == n && Fixed(data, pos, n) == v
  {
    CfaCodec.FixedRoundTrip(v, n);
    CfaCodec.StandsAtBytes(CfaCodec.EncodeFixed(v, n), data, pos);
  }

  lemma OneUleb(data: seq<Byte>, pos: nat)
    ensures var one, r := Uleb(data, pos), Ulebs(data, pos, 1);
      && r.pos == one.pos
      && r.value == match one.value case Ok(v) => Ok([v]) case Err(e) => Err(e)
    ensures Ulebs(data, pos, 0) == Read(Ok([]), pos)
  {
    hide Uleb;
    var one := Uleb(data, pos);
    assert Ulebs(data, one.pos, 0) == Read(Ok([]), one.pos);
    if one.value.Ok? {
      assert [one.value.value] + [] == [one.value.value];
    }
  }

  lemma StandardRoundTrip(h: Header, lengths: seq<Byte>, o: Op, data: seq<Byte>, pos: nat)
    requires HasLengths(h, lengths) && Number(o).Some? && Writable(h, lengths, o)
    requires StandsAt(Encode(h, lengths, o), data, pos)
    ensures var r := ParseOp(h, lengths, data, pos);
      (r.value == Ok(o) <==> Exact(o)) && (r.value == Ok(o) ==> r.pos == pos + |Encode(h, lengths, o)|)
  {
    hide Uleb, Ulebs, ReadUnsigned, EncodeUnsigned, StandsAt;
    var e := Encode(h, lengths, o);
    var (n, operand) := Number(o).value;
    StandsAtRest(e, data, pos);
    assert e[0] == n && ByteAt(data, pos) == n;
    OneUleb(data, pos + 1);
    if operand.Some? {
      assert e[1..] == EncodeUnsigned(operand.value);
      UlebRoundTrip(data, pos + 1, operand.value);
    }
  }

  lemma UlebRoundTrip(data: seq<Byte>, pos: nat, v: Word)
    requires StandsAt(EncodeUnsigned(v), data, pos)
    ensures var r := Uleb(data, pos);
      r.pos == pos + |EncodeUnsigned(v)| && (r.value == Ok(v) <==> v < 0x8000_0000)
  {
    hide ReadUnsigned, EncodeUnsigned, StandsAt;
    UnsignedRoundTrip(data, pos, v);
  }

  /** The head of an extended opcode: its length is read exactly. */
  lemma ExtendedHead(length: nat, op: Byte, tail: seq<Byte>, data: seq<Byte>, pos: nat)
    requires length < 0x8000_0000 && StandsAt([0x00] + EncodeUnsigned(length) + [op] + tail, data, pos)
    ensures var p := pos + 1 + |EncodeUnsigned(length)|;
      && ByteAt(data, pos) == 0 && Uleb(data, pos + 1) == Read(Ok(length), p) && ByteAt(data, p) == op
      && StandsAt(tail, data, p + 1)
  {
    hide ReadUnsigned, EncodeUnsigned, StandsAt, Uleb;
    var n := EncodeUnsigned(length);
    CfaCodec.StandsAtConcat([0x00] + n + [op], tail, data, pos);
    CfaCodec.StandsAtConcat([0x00] + n, [op], data, pos);
    CfaCodec.StandsAtConcat([0x00], n, data, pos);
    StandsAtRest([0x00], data, pos);
    StandsAtRest([op], data, pos + 1 + |n|);
    UlebRoundTrip(data, pos + 1, length);
  }

  lemma {:induction false} UnsignedIsShort(v: nat, k: nat)
    requires v < Power128(k) && k > 0
    ensures |EncodeUnsigned(v)| <= k
  {
    if v >= 0x80 {
      assert Power128(1) == 0x80 * Power128(0);
      UnsignedIsShort(v / 0x80, k - 1);
    }
  }

  lemma WordIsShort(v: Word)
    ensures |EncodeUnsigned(v)| <= 10
  {
    hide EncodeUnsigned, Power128;
    PowerOfTen();
    UnsignedIsShort(v, 10);
  }

  lemma PowerOfTen()
    ensures Power128(10) == 0x40_0000_0000_0000_0000
  {
    assert Power128(2) == 0x4000;
    assert Power128(4) == 0x1000_0000;
    assert Power128(6) == 0x400_0000_0000;
    assert Power128(8) == 0x100_0000_0000_0000;
  }

  lemma ExtendedRoundTrip(h: Header, lengths: seq<Byte>, o: Op, data: seq<Byte>, pos: nat)
    requires HasLengths(h, lengths) && (o.EndSequence? || o.SetAddress? || o.SetDiscriminator?)
    requires StandsAt(Encode(h, lengths, o), data, pos)
    ensures var r := ParseOp(h, lengths, data, pos);
      (r.value == Ok(o) <==> Exact(o)) && (r.value == Ok(o) ==> r.pos == pos + |Encode(h, lengths, o)|)
  {
    hide Uleb, ReadUnsigned, EncodeUnsigned, StandsAt, Fixed, CfaCodec.EncodeFixed;
    match o
    case EndSequence =>
      assert [0x00] + EncodeUnsigned(1) + [0x01] == [0x00] + EncodeUnsigned(1) + [0x01] + [];
      ExtendedHead(1, 0x01, [], data, pos);
    case SetAddress(a) =>
      ExtendedHead(9, 0x02, CfaCodec.EncodeFixed(a, 8), data, pos);
      FixedLimits(8);
      FixedRoundTrip(a, 8, data, pos + 2 + |EncodeUnsigned(9)|);
    case SetDiscriminator(d) =>
      var length := 1 + |EncodeUnsigned(d)|;
      WordIsShort(d);
      ExtendedHead(length, 0x04, EncodeUnsigned(d), data, pos);
      UlebRoundTrip(data, pos + 2 + |EncodeUnsigned(length)|, d);
  }

  lemma {:induction false} StringIsRead(file: seq<Byte>, data: seq<Byte>, pos: nat)
    requires 0 !in file && StandsAt(file + [0], data, pos)
    ensures StringEnd(data, pos) == pos + |file| + 1
  {
    StandsAtRest(file + [0], data, pos);
    if file != [] {
      assert (file + [0])[0] == file[0] && (file + [0])[1..] == file[1..] + [0];
      assert file[0] in file && forall b :: b in file[1..] ==> b in file;
      StringIsRead(file[1..], data, pos + 1);
    }
  }

  /** Three numbers are read back exactly when each of them is. */
  lemma ThreeUlebs(a: Word, b: Word, c: Word, data: seq<Byte>, pos: nat)
    requires StandsAt(EncodeUnsigned(a) + EncodeUnsigned(b) + EncodeUnsigned(c), data, pos)
    ensures var r := Ulebs(data, pos, 3);
      var e := EncodeUnsigned(a) + EncodeUnsigned(b) + EncodeUnsigned(c);
      && (r.value == Ok([a, b, c]) <==> a < 0x8000_0000 && b < 0x8000_0000 && c < 0x8000_0000)
      && (r.value == Ok([a, b, c]) ==> r.pos == pos + |e|)
  {
    hide EncodeUnsigned, StandsAt, Uleb;
    var x, y, z := EncodeUnsigned(a), EncodeUnsigned(b), EncodeUnsigned(c);
    CfaCodec.StandsAtConcat(x + y, z, data, pos);
    CfaCodec.StandsAtConcat(x, y, data, pos);
    UlebRoundTrip(data, pos, a);
    UlebRoundTrip(data, pos + |x|, b);
    UlebRoundTrip(data, pos + |x| + |y|, c);
    OneUleb(data, pos + |x| + |y|);
    var first, second, third := Uleb(data, pos), Uleb(data, pos + |x|), Uleb(data, pos + |x| + |y|);
    var last, two := Ulebs(data, pos + |x| + |y|, 1), Ulebs(data, pos + |x|, 2);
    assert last.value.Ok? <==> third.value.Ok?;
    if second.value.Ok? && third.value.Ok? {
      assert two.value == Ok([second.value.value] + [third.value.value]) && two.pos == third.pos;
      if first.value.Ok? {
        var v := [first.value.value, second.value.value, third.value.value];
        assert [first.value.value] + ([second.value.value] + [third.value.value]) == v;
        assert v == [a, b, c] <==> v[0] == a && v[1] == b && v[2] == c;
        assert |x + y + z| == |x| + |y| + |z| && third.pos == pos + |x| + |y| + |z|;
        assert Ulebs(data, pos, 3).pos == two.pos;
      }
    }
  }

  lemma FileEntryRoundTrip(file: seq<Byte>, a: Word, b: Word, c: Word, data: seq<Byte>, pos: nat)
    requires file != [] && 0 !in file && StandsAt(FileEntry(file, a, b, c), data, pos)
    ensures var r, o := ParseFile(data, pos), DefineFile(file, a, b, c);
      (r.value == Ok(o) <==> Exact(o)) && (r.value == Ok(o) ==> r.pos == pos + |FileEntry(file, a, b, c)|)
  {
    hide Ulebs, EncodeUnsigned, StandsAt, StringEnd;
    var numbers := EncodeUnsigned(a) + EncodeUnsigned(b) + EncodeUnsigned(c);
    assert FileEntry(file, a, b, c) == file + [0] + numbers;
    CfaCodec.StandsAtConcat(file + [0], numbers, data, pos);
    StringIsRead(file, data, pos);
    ThreeUlebs(a, b, c, data, pos + |file| + 1);
    NameStands(file, data, pos);
    var r := Ulebs(data, pos + |file| + 1, 3);
    if r.value.Ok? {
      var v := r.value.value;
      assert v == [a, b, c] <==> v[0] == a && v[1] == b && v[2] == c;
    }
  }

  lemma FileRoundTrip(h: Header, lengths: seq<Byte>, o: Op, data: seq<Byte>, pos: nat)
    requires HasLengths(h, lengths) && o.DefineFile? && Writable(h, lengths, o)
    requires StandsAt(Encode(h, lengths, o), data, pos)
    ensures var r := ParseOp(h, lengths, data, pos);
      (r.value == Ok(o) <==> Exact(o)) && (r.value == Ok(o) ==> r.pos == pos + |Encode(h, lengths, o)|)
  {
    hide Uleb, EncodeUnsigned, StandsAt, Fixed, ParseFile, Exact;
    var operand := FileEntry(o.file, o.directory, o.modified, o.size);
    var length := 1 + |operand|;
    WordIsShort(o.directory);
    WordIsShort(o.modified);
    WordIsShort(o.size);
    ExtendedHead(length, 0x03, operand, data, pos);
    FileEntryRoundTrip(o.file, o.directory, o.modified, o.size, data, pos + 2 + |EncodeUnsigned(length)|);
  }

  lemma NameStands(file: seq<Byte>, data: seq<Byte>, pos: nat)
    requires file != [] && 0 !in file && StandsAt(file + [0], data, pos)
    ensures pos + |file| < |data| && data[pos] != 0 && data[pos..pos + |file|] == file
  {
    CfaCodec.StandsAtConcat(file, [0], data, pos);
    assert data[pos..pos + |file|][0] == data[pos];
  }

  /** One operation is read back, and exactly its bytes are consumed, precisely when its operand
      survives the 32-bit shift. */
  lemma OpRoundTrip(h: Header, lengths: seq<Byte>, o: Op, data: seq<Byte>, pos: nat)
    requires HasLengths(h, lengths) && Writable(h, lengths, o) && StandsAt(Encode(h, lengths, o), data, pos)
    ensures var r := ParseOp(h, lengths, data, pos);
      (r.value == Ok(o) <==> Exact(o)) && (r.value == Ok(o) ==> r.pos == pos + |Encode(h, lengths, o)|)
  {
    hide Uleb, Ulebs, Sleb, Fixed, ReadUnsigned, ReadSigned, EncodeUnsigned, EncodeSigned, StandsAt,
         CfaCodec.EncodeFixed, Standard;
    if o.EndSequence? || o.SetAddress? || o.SetDiscriminator? {
      ExtendedRoundTrip(h, lengths, o, data, pos);
    } else if o.DefineFile? {
      FileRoundTrip(h, lengths, o, data, pos);
    } else if o.Special? {
      StandsAtRest([o.op], data, pos);
    } else if o.AdvanceLineBy? {
      StandsAtRest([0x03] + EncodeSigned(o.delta), data, pos);
      assert ([0x03] + EncodeSigned(o.delta))[1..] == EncodeSigned(o.delta);
      SlebRoundTrip(data, pos + 1, o.delta);
    } else if o.FixedAdvancePC? {
      var e := CfaCodec.EncodeFixed(o.step, 2);
      StandsAtRest([0x09] + e, data, pos);
      assert ([0x09] + e)[1..] == e;
      FixedLimits(2);
      FixedRoundTrip(o.step, 2, data, pos + 1);
    } else {
      StandardRoundTrip(h, lengths, o, data, pos);
    }
  }

  lemma SlebRoundTrip(data: seq<Byte>, pos: nat, i: int)
    requires StandsAt(EncodeSigned(i), data, pos) && -(WORD_SIZE / 2) <= i < WORD_SIZE / 2
    ensures var r := Sleb(data, pos);
      r.pos == pos + |EncodeSigned(i)| && (r.value == Ok(i) <==> -0x8000_0000 <= i < 0x8000_0000)
  {
    hide ReadSigned, EncodeSigned, StandsAt;
    SignedRoundTrip(data, pos, i);
  }

  predicate AllWritable(h: Header, lengths: seq<Byte>, ops: seq<Op>)
    requires HasLengths(h, lengths)
  {
    ops == [] || (Writable(h, lengths, ops[0]) && AllWritable(h, lengths, ops[1..]))
  }

  function EncodeAll(h: Header, lengths: seq<Byte>, ops: seq<Op>): seq<Byte>
    requires HasLengths(h, lengths) && AllWritable(h, lengths, ops)
  {
    if ops == [] then [] else Encode(h, lengths, ops[0]) + EncodeAll(h, lengths, ops[1..])
  }

  predicate AllExact(ops: seq<Op>) {
    ops == [] || (Exact(ops[0]) && AllExact(ops[1..]))
  }

  /** Any list of operations is decoded from the concatenation of its encodings, without an
      exception, precisely when every operand survives the 32-bit shift. */
  lemma {:induction false} ProgramRoundTrip(h: Header, lengths: seq<Byte>, ops: seq<Op>, data: seq<Byte>, pos: nat)
    requires HasLengths(h, lengths) && AllWritable(h, lengths, ops)
    requires StandsAt(EncodeAll(h, lengths, ops), data, pos)
    ensures Program(h, lengths, data, pos, pos + |EncodeAll(h, lengths, ops)|) == (ops, None) <==> AllExact(ops)
    decreases |ops|
  {
    hide Program, ParseOp, Encode, Exact, StandsAt, Writable;
    if ops == [] {
      NothingLeft(h, lengths, data, pos);
    } else {
      var e, rest := Encode(h, lengths, ops[0]), EncodeAll(h, lengths, ops[1..]);
      CfaCodec.StandsAtConcat(e, rest, data, pos);
      OpRoundTrip(h, lengths, ops[0], data, pos);
      ProgramRoundTrip(h, lengths, ops[1..], data, pos + |e|);
      ProgramStep(h, lengths, ops, data, pos);
    }
  }

  lemma NothingLeft(h: Header, lengths: seq<Byte>, data: seq<Byte>, pos: nat)
    requires HasLengths(h, lengths)
    ensures Program(h, lengths, data, pos, pos) == ([], None)
  {
  }

  lemma ProgramStep(h: Header, lengths: seq<Byte>, ops: seq<Op>, data: seq<Byte>, pos: nat)
    requires HasLengths(h, lengths) && ops != [] && AllWritable(h, lengths, ops)
    requires StandsAt(EncodeAll(h, lengths, ops), data, pos)
    ensures var last := pos + |EncodeAll(h, lengths, ops)|;
      var r := ParseOp(h, lengths, data, pos);
      Program(h, lengths, data, pos, last) == (ops, None) <==>
        r.value == Ok(ops[0]) && Program(h, lengths, data, r.pos, last) == (ops[1..], None)
  {
    hide ParseOp, Encode;
    assert |Encode(h, lengths, ops[0])| > 0 by { EncodeNotEmpty(h, lengths, ops[0]); }
    assert ops == [ops[0]] + ops[1..];
  }

  lemma EncodeNotEmpty(h: Header, lengths: seq<Byte>, o: Op)
    requires HasLengths(h, lengths) && Writable(h, lengths, o)
    ensures |Encode(h, lengths, o)| > 0
  {
  }

  // ---------------------------------------------------------------------------------------
  // Opcodes that the standard lets a reader skip

  /** An extended opcode ends where its length says exactly when the length fits its operand; the
      source reads on behind the operand either way. */
  lemma ExtendedEndsExactly(data: seq<Byte>, pos: nat)
    ensures var length, r := Uleb(data, pos), ParseExtended(data, pos);
      length.value.Ok? && r.value.Ok? && !r.value.value.DefineFile? ==>
        var n := length.value.value;
        (r.pos == length.pos + n <==>
          if r.value.value.EndSequence? then n == 1
          else if r.value.value.SetAddress? then n in {2, 3, 5, 9}
          else n == Uleb(data, length.pos + 1).pos - length.pos)
  {
    hide Uleb, Fixed, Ulebs, StringEnd;
  }

  /** Sections 6.2.5.2 and 6.2.5.3 let a reader skip opcodes that it does not know; the source
      throws on each of them. */
  lemma UnknownOpcodesThrow(h: Header, lengths: seq<Byte>, data: seq<Byte>, pos: nat)
    requires HasLengths(h, lengths)
    ensures var b, r := ByteAt(data, pos), ParseOp(h, lengths, data, pos);
      && (0x0c < b < h.opcodeBase && Ulebs(data, pos + 1, lengths[b - 1]).value.Ok? ==>
           r.value == Err(UnknownStandard))
      && (b == 0 && Uleb(data, pos + 1).value.Ok? && ByteAt(data, Uleb(data, pos + 1).pos) !in {1, 2, 3, 4} ==>
           r.value == Err(UnknownExtended))
  {
    hide Uleb, Fixed, Ulebs, StringEnd;
  }

  // ---------------------------------------------------------------------------------------
  // What the bytes do

  /** The registers and rows after the operations that bytes are decoded to. */
  function Effect(h: Header, lengths: seq<Byte>, r: Registers, bytes: seq<Byte>): (Registers, seq<Registers>)
    requires h.Valid() && HasLengths(h, lengths)
  {
    Run(h, r, Program(h, lengths, bytes, 0, |bytes|).0)
  }

  lemma OneEffect(h: Header, lengths: seq<Byte>, r: Registers, o: Op)
    requires h.Valid() && HasLengths(h, lengths) && Writable(h, lengths, o) && Exact(o)
    ensures Encodable(h, o)
    ensures Effect(h, lengths, r, Encode(h, lengths, o)) == (Step(h, r, o).0, Appended(Step(h, r, o).1))
  {
    hide Program, Encode, Step, Appended, Exact, Run;
    WritableIsEncodable(h, lengths, o);
    var e := Encode(h, lengths, o);
    assert [o][1..] == [];
    assert EncodeAll(h, lengths, [o]) == e + EncodeAll(h, lengths, []) == e;
    assert AllExact([o]) by { assert AllExact([]); }
    ProgramRoundTrip(h, lengths, [o], e, 0);
    OneRuns(h, r, o);
  }

  lemma WritableIsEncodable(h: Header, lengths: seq<Byte>, o: Op)
    requires HasLengths(h, lengths) && Writable(h, lengths, o)
    ensures Encodable(h, o)
  {
  }

  /** A count for each standard opcode, and those of section 6.2.5.2 first. */
  predicate StandardLengths(h: Header, lengths: seq<Byte>) {
    13 <= h.opcodeBase == |lengths| + 1 && lengths[..12] == [0, 1, 1, 1, 1, 0, 0, 0, 1, 0, 0, 1]
  }

  /** Section 6.2.5.2 from the bytes: the standard opcodes with one operand. */
  lemma OperandBytesMean(h: Header, lengths: seq<Byte>, r: Registers, v: nat, d: int)
    requires h.Valid() && StandardLengths(h, lengths) && v < 0x8000_0000 && -0x8000_0000 <= d < 0x8000_0000
    ensures Effect(h, lengths, r, [0x02] + EncodeUnsigned(v)) == (AdvancePc(h, r, v), [])
    ensures Effect(h, lengths, r, [0x03] + EncodeSigned(d)) == (r.(line := Add(r.line, d)), [])
    ensures Effect(h, lengths, r, [0x04] + EncodeUnsigned(v)) == (r.(file := v), [])
    ensures Effect(h, lengths, r, [0x05] + EncodeUnsigned(v)) == (r.(column := v), [])
    ensures Effect(h, lengths, r, [0x0c] + EncodeUnsigned(v)) == (r.(isa := v), [])
  {
    hide Effect, EncodeUnsigned, EncodeSigned, Add, AdvancePc;
    StandardCounts(h, lengths);
    OneEffect(h, lengths, r, AdvancePC(v));
    OneEffect(h, lengths, r, AdvanceLineBy(d));
    OneEffect(h, lengths, r, SetFile(v));
    OneEffect(h, lengths, r, SetColumn(v));
    OneEffect(h, lengths, r, SetISA(v));
  }

  lemma StandardCounts(h: Header, lengths: seq<Byte>)
    requires StandardLengths(h, lengths)
    ensures lengths[0] == lengths[5] == lengths[6] == lengths[7] == lengths[9] == lengths[10] == 0
    ensures lengths[1] == lengths[3] == lengths[4] == lengths[11] == 1
  {
    assert forall i :: 0 <= i < 12 ==> lengths[i] == lengths[..12][i];
  }

  /** Section 6.2.5.2 from the bytes: the standard opcodes without operands. */
  lemma PlainBytesMean(h: Header, lengths: seq<Byte>, r: Registers)
    requires h.Valid() && StandardLengths(h, lengths)
    ensures Effect(h, lengths, r, [0x01])
      == (r.(basicBlock := false, prologueEnd := false, epilogueBegin := false, discriminator := 0), [r])
    ensures Effect(h, lengths, r, [0x06]) == (r.(isStmt := !r.isStmt), [])
    ensures Effect(h, lengths, r, [0x07]) == (r.(basicBlock := true), [])
    ensures Effect(h, lengths, r, [0x08]) == (Step(h, r, ConstAddPC).0, [])
    ensures Effect(h, lengths, r, [0x0a]) == (r.(prologueEnd := true), [])
    ensures Effect(h, lengths, r, [0x0b]) == (r.(epilogueBegin := true), [])
  {
    hide Effect, Add, AdvancePc;
    StandardCounts(h, lengths);
    OneEffect(h, lengths, r, Copy);
    assert Encode(h, lengths, Copy) == [0x01];
    OneEffect(h, lengths, r, NegateStmt);
    assert Encode(h, lengths, NegateStmt) == [0x06];
    OneEffect(h, lengths, r, SetBasicBlock);
    assert Encode(h, lengths, SetBasicBlock) == [0x07];
    OneEffect(h, lengths, r, ConstAddPC);
    assert Encode(h, lengths, ConstAddPC) == [0x08];
    OneEffect(h, lengths, r, SetPrologueEnd);
    assert Encode(h, lengths, SetPrologueEnd) == [0x0a];
    OneEffect(h, lengths, r, SetEpilogueBegin);
    assert Encode(h, lengths, SetEpilogueBegin) == [0x0b];
  }

  /** The opcodes with numbers of a fixed size (0x09 and the extended 0x02), and the other extended
      opcodes: end_sequence (0x01) and set_discriminator (0x04). */
  lemma OtherBytesMean(h: Header, lengths: seq<Byte>, r: Registers, a: Byte, b: Byte, address: Word, v: nat)
    requires h.Valid() && HasLengths(h, lengths) && h.opcodeBase >= 10 && v < 0x8000_0000
    ensures Effect(h, lengths, r, [0x09, a, b]) == (r.(address := Add(r.address, a + 0x100 * b), opIndex := 0), [])
    ensures Effect(h, lengths, r, [0x00, 0x01, 0x01])
      == (Registers(0, 0, 1, 1, 0, h.defaultIsStmt, false, false, false, false, 0, 0), [r.(endSequence := true)])
    ensures Effect(h, lengths, r, [0x00, 0x09, 0x02] + CfaCodec.EncodeFixed(address, 8))
      == (r.(address := address, opIndex := 0), [])
    ensures Effect(h, lengths, r, [0x00] + EncodeUnsigned(1 + |EncodeUnsigned(v)|) + [0x04] + EncodeUnsigned(v))
      == (r.(discriminator := v), [])
  {
    hide Effect, Add, Run;
    OneEffect(h, lengths, r, FixedAdvancePC(a + 0x100 * b));
    TwoBytes(a, b);
    assert [0x09] + [a, b] == [0x09, a, b];
    OneEffect(h, lengths, r, EndSequence);
    assert EncodeUnsigned(1) == [0x01] && EncodeUnsigned(9) == [0x09];
    assert [0x00] + [0x01] + [0x01] == [0x00, 0x01, 0x01] && [0x00] + [0x09] + [0x02] == [0x00, 0x09, 0x02];
    OneEffect(h, lengths, r, SetAddress(address));
    OneEffect(h, lengths, r, SetDiscriminator(v));
  }

  lemma TwoBytes(a: Byte, b: Byte)
    ensures CfaCodec.EncodeFixed(a + 0x100 * b, 2) == [a, b]
  {
    assert CfaCodec.EncodeFixed(b, 1) == [b] + CfaCodec.EncodeFixed(0, 0);
  }

  /** A byte at or above the opcode base, other than 0, is a special opcode of its own number. */
  lemma SpecialByteMeans(h: Header, lengths: seq<Byte>, r: Registers, b: Byte)
    requires h.Valid() && HasLengths(h, lengths) && b > 0 && b >= h.opcodeBase
    ensures Effect(h, lengths, r, [b]) == (Step(h, r, Special(b)).0, [Step(h, r, Special(b)).1.value])
  {
    hide Effect, Add, Run;
    OneEffect(h, lengths, r, Special(b));
  }
}
