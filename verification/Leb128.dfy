/** The LEB128 readers (section 7.6 of DWARF version 4).  The source shifts each group of
    seven bits as a 32-bit int and widens the result to 64 bits; a shift by 32 or more is
    undefined there and reported here as Undefined. */
module Leb128 {
  import opened Machine

  datatype LebError = Overflow | Undefined

  /** What a read at some position yields, and the position after it. */
  datatype Read<+T> = Read(value: T, pos: nat)

  /** istream::get as uint8_t: past the end it yields EOF, which is 0xff as a byte. */
  function ByteAt(data: seq<Byte>, pos: nat): Byte {
    if pos < |data| then data[pos] else 0xff
  }

  /** 2 to the power of a multiple of seven. */
  function Scale(offset: nat): nat {
    if offset == 0 then 1
    else if offset == 7 then 0x80
    else if offset == 14 then 0x4000
    else if offset == 21 then 0x20_0000
    else if offset == 28 then 0x1000_0000
    else if offset == 35 then 0x8_0000_0000
    else if offset == 42 then 0x400_0000_0000
    else if offset == 49 then 0x2_0000_0000_0000
    else if offset == 56 then 0x100_0000_0000_0000
    else 0x8000_0000_0000_0000
  }

  const INT_MODULUS: nat := 0x1_0000_0000
  const INT_LIMIT: nat := 0x8000_0000

  /** A 32-bit int pattern widened to uint64_t by sign extension. */
  function Widen(bits: int): Word {
    var u := bits % INT_MODULUS;
    if u < INT_LIMIT then u else WORD_SIZE - INT_MODULUS + u
  }

  /** value |= (bits << offset): the bits below the offset are those of value and the bits
      from the offset up are still clear, so the disjunction is a sum. */
  function Accumulate(value: Option<Word>, bits: nat, offset: nat): Option<Word> {
    if value.None? || offset >= 32 then None else Some(Add(value.value, Widen(bits * Scale(offset))))
  }

  /** value | (~0 << offset). */
  function FillAbove(value: Word, offset: nat): Word
    requires offset <= 63
  {
    WORD_SIZE - Scale(offset) + value % Scale(offset)
  }

  function IsLast(b: Byte): bool { b < 0x80 }

  function IsSigned(b: Byte): bool { b % 0x80 >= 0x40 }

  /** The unsigned reader from a given point of its loop on; value is None once an undefined
      shift has been made. */
  function ReadUnsigned(data: seq<Byte>, pos: nat, value: Option<Word>, offset: nat): Read<Result<Word, LebError>>
    decreases if offset < 64 then 64 - offset else 0
  {
    var b := ByteAt(data, pos);
    var v := Accumulate(value, b % 0x80, offset);
    if !IsLast(b) && offset < 64 then ReadUnsigned(data, pos + 1, v, offset + 7)
    else if !IsLast(b) then Read(Err(Overflow), pos + 1)
    else Read(if v.None? then Err(Undefined) else Ok(v.value), pos + 1)
  }

  function ReadSigned(data: seq<Byte>, pos: nat, value: Option<Word>, offset: nat): Read<Result<int, LebError>>
    decreases if offset < 64 then 64 - offset else 0
  {
    var b := ByteAt(data, pos);
    var v := Accumulate(value, b % 0x80, offset);
    if !IsLast(b) && offset < 64 then ReadSigned(data, pos + 1, v, offset + 7)
    else if !IsLast(b) then Read(Err(Overflow), pos + 1)
    else if v.None? then Read(Err(Undefined), pos + 1)
    else if offset + 7 < 64 && IsSigned(b) then Read(Ok(ToSigned(FillAbove(v.value, offset + 7))), pos + 1)
    else Read(Ok(ToSigned(v.value)), pos + 1)
  }

  /** A byte stream; the position counts every byte asked for. */
  class Stream {
    const data: seq<Byte>
    var pos: nat

    constructor (data: seq<Byte>, pos: nat)
      ensures this.data == data && this.pos == pos
    {
      this.data, this.pos := data, pos;
    }

    method GetByte() returns (b: Byte)
      modifies this
      ensures b == (if old(pos) < |data| then data[old(pos)] else 0xff) && pos == old(pos) + 1
    {
      b := if pos < |data| then data[pos] else 0xff;
      pos := pos + 1;
    }

    method ExtractULEB128() returns (r: Result<Word, LebError>)
      modifies this
      ensures Read(r, pos) == ReadUnsigned(data, old(pos), Some(0), 0)
    {
      var value: Option<Word> := Some(0);
      var offset := 0;
      var byte := GetByte();
      var done := IsLast(byte) || offset >= 64;
      value := Accumulate(value, byte % 0x80, offset);
      offset := offset + 7;
      while !done
        invariant offset >= 7 && pos > 0 && byte == ByteAt(data, pos - 1)
        invariant done <==> IsLast(byte) || offset >= 71
        invariant ReadUnsigned(data, old(pos), Some(0), 0) ==
          if !done then ReadUnsigned(data, pos, value, offset)
          else
            Read(if !IsLast(byte) then Err(Overflow) else if value.None? then Err(Undefined) else Ok(value.value), pos)
        decreases 80 - offset
      {
        byte := GetByte();
        done := IsLast(byte) || offset >= 64;
        value := Accumulate(value, byte % 0x80, offset);
        offset := offset + 7;
      }
      if offset >= 64 && !IsLast(byte) { return Err(Overflow); }
      r := if value.None? then Err(Undefined) else Ok(value.value);
    }

    method ExtractSLEB128() returns (r: Result<int, LebError>)
      modifies this
      ensures Read(r, pos) == ReadSigned(data, old(pos), Some(0), 0)
    {
      var value: Option<Word> := Some(0);
      var offset := 0;
      var byte := GetByte();
      var done := IsLast(byte) || offset >= 64;
      value := Accumulate(value, byte % 0x80, offset);
      offset := offset + 7;
      while !done
        invariant offset >= 7 && pos > 0 && byte == ByteAt(data, pos - 1)
        invariant done <==> IsLast(byte) || offset >= 71
        invariant ReadSigned(data, old(pos), Some(0), 0) ==
          if !done then ReadSigned(data, pos, value, offset)
          else Read(Finish(value, byte, offset), pos)
        decreases 80 - offset
      {
        byte := GetByte();
        done := IsLast(byte) || offset >= 64;
        value := Accumulate(value, byte % 0x80, offset);
        offset := offset + 7;
      }
      if offset < 64 && IsSigned(byte) && value.Some? {
        value := Some(FillAbove(value.value, offset));
      }
      if offset >= 64 && !IsLast(byte) { return Err(Overflow); }
      r := if value.None? then Err(Undefined) else Ok(ToSigned(value.value));
    }
  }

  /** The end of the signed reader, after its loop. */
  ghost function Finish(value: Option<Word>, byte: Byte, offset: nat): Result<int, LebError> {
    if !IsLast(byte) then Err(Overflow)
    else if value.None? then Err(Undefined)
    else if offset < 64 && IsSigned(byte) then Ok(ToSigned(FillAbove(value.value, offset)))
    else Ok(ToSigned(value.value))
  }

  // ---------------------------------------------------------------------------------------
  // Section 7.6: the encodings

  function EncodeUnsigned(v: nat): (bytes: seq<Byte>)
    ensures bytes != []
  {
    if v < 0x80 then [v] else [0x80 + v % 0x80] + EncodeUnsigned(v / 0x80)
  }

  function EncodeSigned(i: int): (bytes: seq<Byte>)
    ensures bytes != []
    decreases if i < 0 then -i else i
  {
    var rest := i / 0x80;
    if -0x40 <= i < 0x40 then [i % 0x80] else [0x80 + i % 0x80] + EncodeSigned(rest)
  }

  /** A chain: bit 7 is set in every byte but the last. */
  predicate Chained(bytes: seq<Byte>) {
    bytes != [] && if |bytes| == 1 then bytes[0] < 0x80 else bytes[0] >= 0x80 && Chained(bytes[1..])
  }

  /** The number whose digits in base 128, least significant first, are the low seven bits. */
  function Digits(bytes: seq<Byte>): nat {
    if bytes == [] then 0 else bytes[0] % 0x80 + 0x80 * Digits(bytes[1..])
  }

  function Power128(n: nat): nat {
    if n == 0 then 1 else 0x80 * Power128(n - 1)
  }

  /** An unsigned encoding is the shortest chain with these digits. */
  lemma {:induction false} UnsignedDigits(v: nat)
    ensures var e := EncodeUnsigned(v);
      Chained(e) && Digits(e) == v && (|e| > 1 ==> e[|e| - 1] != 0)
  {
    var e := EncodeUnsigned(v);
    if v < 0x80 {
      assert e[1..] == [];
    } else {
      UnsignedDigits(v / 0x80);
      assert e[1..] == EncodeUnsigned(v / 0x80);
    }
  }

  /** A signed encoding holds the two's complement of its number in seven bits a byte; bit 6 of
      the last one is the sign. */
  lemma {:induction false} SignedDigits(i: int)
    ensures var e := EncodeSigned(i);
      && Chained(e) && Digits(e) == i + (if i < 0 then Power128(|e|) else 0)
      && (e[|e| - 1] >= 0x40 <==> i < 0)
    decreases if i < 0 then -i else i
  {
    var e := EncodeSigned(i);
    if -0x40 <= i < 0x40 {
      assert e[1..] == [];
      assert Power128(1) == 0x80 * Power128(0);
    } else {
      var rest := EncodeSigned(i / 0x80);
      SignedDigits(i / 0x80);
      assert e == [0x80 + i % 0x80] + rest && e[1..] == rest && e[|e| - 1] == rest[|rest| - 1];
      assert Power128(|e|) == 0x80 * Power128(|rest|);
      assert i == 0x80 * (i / 0x80) + i % 0x80;
    }
  }

  /** The bytes of e stand in data from pos on. */
  ghost predicate StandsAt(e: seq<Byte>, data: seq<Byte>, pos: nat) {
    pos + |e| <= |data| && data[pos..pos + |e|] == e
  }

  lemma StandsAtRest(e: seq<Byte>, data: seq<Byte>, pos: nat)
    requires StandsAt(e, data, pos) && e != []
    ensures data[pos] == e[0] && StandsAt(e[1..], data, pos + 1)
  {
  }

  // ---------------------------------------------------------------------------------------
  // Main results

  /** A reader asks for at most eleven bytes, whatever the stream holds. */
  lemma {:induction false} ReadsAtMostElevenBytes(data: seq<Byte>, pos: nat, value: Option<Word>, k: nat)
    requires k <= 10
    ensures pos < ReadUnsigned(data, pos, value, 7 * k).pos <= pos + 11 - k
    ensures pos < ReadSigned(data, pos, value, 7 * k).pos <= pos + 11 - k
    decreases 10 - k
  {
    if k < 10 {
      var v := Accumulate(value, ByteAt(data, pos) % 0x80, 7 * k);
      ReadsAtMostElevenBytes(data, pos + 1, v, k + 1);
    }
  }

  /** Bit 7 is set in the next n bytes. */
  predicate SetFor(data: seq<Byte>, pos: nat, n: nat)
    decreases n
  {
    n == 0 || (ByteAt(data, pos) >= 0x80 && SetFor(data, pos + 1, n - 1))
  }

  /** How the readers fail: with Overflow when eleven bytes have bit 7 set, and with Undefined
      when five do but not eleven; they go on past the end of the stream, where bytes are 0xff. */
  lemma FailsExactly(data: seq<Byte>, pos: nat)
    ensures var u, i := ReadUnsigned(data, pos, Some(0), 0).value, ReadSigned(data, pos, Some(0), 0).value;
      && (u == Err(Overflow) <==> SetFor(data, pos, 11))
      && (u == Err(Undefined) <==> SetFor(data, pos, 5) && !SetFor(data, pos, 11))
      && (i == Err(Overflow) <==> SetFor(data, pos, 11))
      && (i == Err(Undefined) <==> SetFor(data, pos, 5) && !SetFor(data, pos, 11))
  {
    hide ReadUnsigned, ReadSigned, SetFor;
    FailsFrom(data, pos, Some(0), 0);
  }

  lemma {:induction false} FailsFrom(data: seq<Byte>, pos: nat, value: Option<Word>, k: nat)
    requires k <= 10 && (value.None? <==> k > 5)
    ensures var u, i := ReadUnsigned(data, pos, value, 7 * k).value, ReadSigned(data, pos, value, 7 * k).value;
      var long, shifted := SetFor(data, pos, 11 - k), SetFor(data, pos, if k < 5 then 5 - k else 0);
      && (u == Err(Overflow) <==> long) && (u == Err(Undefined) <==> shifted && !long)
      && (i == Err(Overflow) <==> long) && (i == Err(Undefined) <==> shifted && !long)
    decreases 10 - k
  {
    hide Widen, Scale, FillAbove, ByteAt;
    if k < 10 {
      FailsFrom(data, pos + 1, Accumulate(value, ByteAt(data, pos) % 0x80, 7 * k), k + 1);
    }
  }

  /** What the unsigned reader makes of the encoding of v. */
  function UnsignedAsRead(v: Word): Result<Word, LebError> {
    if v < 0x8_0000_0000 then Ok(Widen(v)) else Err(Undefined)
  }

  /** What the signed reader makes of the encoding of i. */
  function SignedAsRead(i: int): Result<int, LebError> {
    if 0 <= i < 0x4_0000_0000 then Ok(ToSigned(Widen(i)))
    else if -0x4_0000_0000 <= i < 0 then Ok(ToSigned(FillAbove(Widen(i), 35)))
    else Err(Undefined)
  }

  lemma {:induction false} ReadsUndefined(data: seq<Byte>, pos: nat, k: nat, v: nat)
    requires 5 <= k <= 9 && v * Scale(7 * k) < WORD_SIZE && StandsAt(EncodeUnsigned(v), data, pos)
    ensures ReadUnsigned(data, pos, None, 7 * k) == Read(Err(Undefined), pos + |EncodeUnsigned(v)|)
    decreases 9 - k
  {
    StandsAtRest(EncodeUnsigned(v), data, pos);
    if v >= 0x80 {
      ReadsUndefined(data, pos + 1, k + 1, v / 0x80);
    }
  }

  lemma ScaleUp(k: nat)
    requires k <= 3
    ensures Scale(7 * (k + 1)) == 0x80 * Scale(7 * k) && 1 <= Scale(7 * k) <= 0x20_0000
  {
  }

  lemma SplitGroup(i: int, s: nat)
    ensures i * s == (i % 0x80) * s + (i / 0x80) * (0x80 * s)
  {
  }

  lemma GroupFits(b: nat, s: nat, acc: nat)
    requires b < 0x80 && acc < s <= 0x20_0000
    ensures b * s < 0x1000_0000 && acc + b * s < 0x80 * s
  {
  }

  lemma WidenSmall(n: nat)
    requires n < INT_LIMIT
    ensures Widen(n) == n
  {
  }

  /** One of the first four groups is accumulated exactly. */
  lemma LowGroup(k: nat, acc: nat, i: int)
    requires k <= 3 && acc < Scale(7 * k)
    ensures var b, s := i % 0x80, Scale(7 * k);
      && Accumulate(Some(acc), b, 7 * k) == Some(acc + b * s)
      && acc + b * s < Scale(7 * (k + 1))
      && acc + i * s == acc + b * s + (i / 0x80) * Scale(7 * (k + 1))
  {
    hide Scale, Widen;
    var s := Scale(7 * k);
    ScaleUp(k);
    SplitGroup(i, s);
    GroupFits(i % 0x80, s, acc);
    WidenSmall((i % 0x80) * s);
  }

  lemma {:induction false} ReadsUnsignedFrom(data: seq<Byte>, pos: nat, k: nat, acc: nat, v: nat)
    requires k <= 4 && acc < Scale(7 * k) && StandsAt(EncodeUnsigned(v), data, pos)
    requires acc + v * Scale(7 * k) < WORD_SIZE
    ensures ReadUnsigned(data, pos, Some(acc), 7 * k)
      == Read(UnsignedAsRead(acc + v * Scale(7 * k)), pos + |EncodeUnsigned(v)|)
    decreases 4 - k
  {
    hide Scale, Accumulate, Widen, StandsAt, UnsignedAsRead;
    StandsAtRest(EncodeUnsigned(v), data, pos);
    if k < 4 {
      LowGroup(k, acc, v);
      if v >= 0x80 {
        ReadsUnsignedFrom(data, pos + 1, k + 1, acc + (v % 0x80) * Scale(7 * k), v / 0x80);
      } else {
        SmallIsExact(k, acc, v);
      }
    } else {
      TopScale();
      if v < 0x80 {
        TopGroup(acc, v);
        TopAsRead(acc, v);
      } else {
        LongIsUndefined(data, pos, acc, v);
        LongAsRead(acc, v);
      }
    }
  }

  lemma TopScale()
    ensures Scale(28) == 0x1000_0000
  {
  }

  lemma TopAsRead(acc: nat, v: nat)
    requires acc < 0x1000_0000 && v < 0x80
    ensures UnsignedAsRead(acc + v * 0x1000_0000) == Ok(Widen(acc + v * 0x1000_0000))
  {
  }

  lemma LongAsRead(acc: nat, v: nat)
    requires v >= 0x80 && acc + v * 0x1000_0000 < WORD_SIZE
    ensures UnsignedAsRead(acc + v * 0x1000_0000) == Err(Undefined)
  {
  }

  lemma SmallIsExact(k: nat, acc: nat, v: nat)
    requires k <= 3 && acc < Scale(7 * k) && v < 0x80
    ensures acc + v * Scale(7 * k) < 0x1000_0000
    ensures UnsignedAsRead(acc + v * Scale(7 * k)) == Ok(acc + v * Scale(7 * k))
  {
  }

  lemma LongIsUndefined(data: seq<Byte>, pos: nat, acc: nat, v: nat)
    requires acc < 0x1000_0000 && 0x80 <= v && acc + v * 0x1000_0000 < WORD_SIZE
    requires StandsAt(EncodeUnsigned(v), data, pos)
    ensures ReadUnsigned(data, pos, Some(acc), 28) == Read(Err(Undefined), pos + |EncodeUnsigned(v)|)
  {
    StandsAtRest(EncodeUnsigned(v), data, pos);
    var w := Accumulate(Some(acc), v % 0x80, 28);
    StandsAtRest(EncodeUnsigned(v / 0x80), data, pos + 1);
    assert ReadUnsigned(data, pos + 1, w, 35) == ReadUnsigned(data, pos + 1, None, 35);
    ReadsUndefined(data, pos + 1, 5, v / 0x80);
  }

  /** The fifth group is cut to 32 bits before it is widened. */
  lemma TopGroup(acc: nat, b: nat)
    requires acc < 0x1000_0000 && b < 0x80
    ensures Accumulate(Some(acc), b, 28) == Some(Widen(acc + b * 0x1000_0000))
  {
    hide Widen;
    CutTo32(acc, b);
    CutTo32(0, b);
    WidenCut(acc, b % 16 * 0x1000_0000);
    WidenOfCut(b * 0x1000_0000);
    WidenOfCut(acc + b * 0x1000_0000);
  }

  lemma CutTo32(acc: nat, b: nat)
    requires acc < 0x1000_0000 && b < 0x80
    ensures (acc + b * 0x1000_0000) % 0x1_0000_0000 == acc + b % 16 * 0x1000_0000
  {
    var q, r := b / 16, b % 16;
    assert b * 0x1000_0000 == q * 0x1_0000_0000 + r * 0x1000_0000;
  }

  lemma WidenOfCut(n: nat)
    ensures Widen(n) == Widen(n % 0x1_0000_0000)
  {
  }

  /** Bits below 28 pass through the widening. */
  lemma WidenCut(acc: nat, top: nat)
    requires acc < 0x1000_0000 && top <= 0xf000_0000 && top % 0x1000_0000 == 0
    ensures Add(acc, Widen(top)) == Widen(acc + top)
  {
  }

  /** Reading the encoding of v consumes exactly its bytes and yields v exactly when v is
      below 2 to the 31. */
  lemma UnsignedRoundTrip(data: seq<Byte>, pos: nat, v: Word)
    requires StandsAt(EncodeUnsigned(v), data, pos)
    ensures var r := ReadUnsigned(data, pos, Some(0), 0);
      && r.pos == pos + |EncodeUnsigned(v)|
      && (r.value == Ok(v) <==> v < INT_LIMIT)
      && (0x8_0000_0000 <= v ==> r.value == Err(Undefined))
  {
    hide ReadUnsigned, StandsAt, EncodeUnsigned, Widen;
    ReadsUnsignedFrom(data, pos, 0, 0, v);
    WidenExactly(v);
  }

  lemma WidenExactly(v: Word)
    ensures Widen(v) == v <==> v < INT_LIMIT || v >= WORD_SIZE - INT_LIMIT
  {
  }

  lemma {:induction false} SignedReadsUndefined(data: seq<Byte>, pos: nat, k: nat, i: int)
    requires 5 <= k <= 9 && StandsAt(EncodeSigned(i), data, pos)
    requires -(WORD_SIZE / 2) <= i * Scale(7 * k) < WORD_SIZE / 2
    ensures ReadSigned(data, pos, None, 7 * k) == Read(Err(Undefined), pos + |EncodeSigned(i)|)
    decreases 9 - k
  {
    hide Scale, StandsAt;
    StandsAtRest(EncodeSigned(i), data, pos);
    if !(-0x40 <= i < 0x40) {
      HighGroup(k, i);
      SignedReadsUndefined(data, pos + 1, k + 1, i / 0x80);
    }
  }

  /** A high group that is not the last leaves room for one more. */
  lemma HighGroup(k: nat, i: int)
    requires 5 <= k <= 9 && !(-0x40 <= i < 0x40)
    requires -(WORD_SIZE / 2) <= i * Scale(7 * k) < WORD_SIZE / 2
    ensures k < 9 && -(WORD_SIZE / 2) <= (i / 0x80) * Scale(7 * (k + 1)) < WORD_SIZE / 2
  {
  }

  lemma {:induction false} ReadsSignedFrom(data: seq<Byte>, pos: nat, k: nat, acc: nat, i: int)
    requires k <= 4 && acc < Scale(7 * k) && StandsAt(EncodeSigned(i), data, pos)
    requires -(WORD_SIZE / 2) <= acc + i * Scale(7 * k) < WORD_SIZE / 2
    ensures ReadSigned(data, pos, Some(acc), 7 * k)
      == Read(SignedAsRead(acc + i * Scale(7 * k)), pos + |EncodeSigned(i)|)
    decreases 4 - k
  {
    hide Scale, Accumulate, Widen, FillAbove, SignedAsRead, StandsAt;
    if -0x40 <= i < 0x40 {
      LastSigned(data, pos, k, acc, i);
    } else if k < 4 {
      StandsAtRest(EncodeSigned(i), data, pos);
      LowGroup(k, acc, i);
      ReadsSignedFrom(data, pos + 1, k + 1, acc + (i % 0x80) * Scale(7 * k), i / 0x80);
    } else {
      LongSignedIsUndefined(data, pos, acc, i);
    }
  }

  lemma LastSigned(data: seq<Byte>, pos: nat, k: nat, acc: nat, i: int)
    requires k <= 4 && acc < Scale(7 * k) && -0x40 <= i < 0x40 && StandsAt(EncodeSigned(i), data, pos)
    ensures ReadSigned(data, pos, Some(acc), 7 * k) == Read(SignedAsRead(acc + i * Scale(7 * k)), pos + 1)
  {
    hide Accumulate, Widen, FillAbove, SignedAsRead;
    StandsAtRest(EncodeSigned(i), data, pos);
    if k < 4 {
      LowGroup(k, acc, i);
      SmallSigned(k, acc, i);
    } else {
      TopGroup(acc, i % 0x80);
      TopSigned(acc, i);
    }
  }

  lemma LongSignedIsUndefined(data: seq<Byte>, pos: nat, acc: nat, i: int)
    requires acc < Scale(28) && !(-0x40 <= i < 0x40)
    requires -(WORD_SIZE / 2) <= acc + i * Scale(28) < WORD_SIZE / 2
    requires StandsAt(EncodeSigned(i), data, pos)
    ensures ReadSigned(data, pos, Some(acc), 28) == Read(SignedAsRead(acc + i * Scale(28)), pos + |EncodeSigned(i)|)
  {
    hide Accumulate;
    StandsAtRest(EncodeSigned(i), data, pos);
    LongRest(acc, i);
    var w := Accumulate(Some(acc), i % 0x80, 28);
    SignedPoisoned(data, pos + 1, w, i / 0x80);
  }

  lemma LongRest(acc: nat, i: int)
    requires acc < Scale(28) && !(-0x40 <= i < 0x40)
    requires -(WORD_SIZE / 2) <= acc + i * Scale(28) < WORD_SIZE / 2
    ensures -(WORD_SIZE / 2) <= (i / 0x80) * Scale(35) < WORD_SIZE / 2
    ensures SignedAsRead(acc + i * Scale(28)) == Err(Undefined)
  {
  }

  lemma SignedPoisoned(data: seq<Byte>, pos: nat, w: Option<Word>, i: int)
    requires StandsAt(EncodeSigned(i), data, pos)
    requires -(WORD_SIZE / 2) <= i * Scale(35) < WORD_SIZE / 2
    ensures ReadSigned(data, pos, w, 35) == Read(Err(Undefined), pos + |EncodeSigned(i)|)
  {
    SignedReadsUndefined(data, pos, 5, i);
    assert Accumulate(w, data[pos] % 0x80, 35) == Accumulate(None, data[pos] % 0x80, 35);
  }

  /** An encoding of at most four groups is read exactly. */
  lemma SmallSigned(k: nat, acc: nat, i: int)
    requires k <= 3 && acc < Scale(7 * k) && -0x40 <= i < 0x40
    ensures var v := acc + (i % 0x80) * Scale(7 * k);
      var total := acc + i * Scale(7 * k);
      SignedAsRead(total) == Ok(ToSigned(if i < 0 then FillAbove(v, 7 * k + 7) else v))
  {
    hide Scale, FillAbove, SignedAsRead, ToSigned;
    var s := Scale(7 * k);
    ScaleUp(k);
    SmallProduct(i, acc, s);
    SmallAsRead(acc + i * s);
    if i < 0 {
      assert i % 0x80 == i + 0x80;
      assert acc + (i + 0x80) * s == acc + i * s + 0x80 * s;
      FillsUp(k, acc + i * s);
    }
  }

  lemma SmallProduct(i: int, acc: nat, s: nat)
    requires -0x40 <= i < 0x40 && acc < s <= 0x20_0000
    ensures -0x40 * s <= acc + i * s < 0x40 * s
    ensures i < 0 <==> acc + i * s < 0
  {
  }

  lemma SmallAsRead(n: int)
    requires -0x800_0000 <= n < 0x800_0000
    ensures SignedAsRead(n) == Ok(n)
    ensures n >= 0 ==> ToSigned(n) == n
  {
    SignedExactly(n);
  }

  /** Sign extension from the group's end on gives the negative number itself. */
  lemma FillsUp(k: nat, n: int)
    requires k <= 3 && -0x40 * Scale(7 * k) <= n < 0
    ensures ToSigned(FillAbove(n + 0x80 * Scale(7 * k), 7 * k + 7)) == n
  {
  }

  lemma TopSigned(acc: nat, i: int)
    requires acc < 0x1000_0000 && -0x40 <= i < 0x40
    ensures var v := Widen(acc + (i % 0x80) * 0x1000_0000);
      SignedAsRead(acc + i * 0x1000_0000) == Ok(ToSigned(if i < 0 then FillAbove(v, 35) else v))
  {
    hide FillAbove, ToSigned, Widen;
    if i < 0 {
      WidenRepeats(acc + i * 0x1000_0000);
    }
  }

  lemma WidenRepeats(n: int)
    ensures Widen(n + 0x8_0000_0000) == Widen(n)
  {
  }

  /** Reading the encoding of i consumes exactly its bytes and yields i exactly when i fits in
      32 bits. */
  lemma SignedRoundTrip(data: seq<Byte>, pos: nat, i: int)
    requires -(WORD_SIZE / 2) <= i < WORD_SIZE / 2 && StandsAt(EncodeSigned(i), data, pos)
    ensures var r := ReadSigned(data, pos, Some(0), 0);
      && r.pos == pos + |EncodeSigned(i)|
      && (r.value == Ok(i) <==> -0x8000_0000 <= i < INT_LIMIT)
  {
    hide ReadSigned, StandsAt;
    ReadsSignedFrom(data, pos, 0, 0, i);
    SignedExactly(i);
  }

  lemma SignedExactly(i: int)
    ensures SignedAsRead(i) == Ok(i) <==> -0x8000_0000 <= i < INT_LIMIT
  {
    if -0x4_0000_0000 <= i < 0 {
      NegativeExactly(i);
    }
  }

  lemma NegativeExactly(i: int)
    requires -0x4_0000_0000 <= i < 0
    ensures ToSigned(FillAbove(Widen(i), 35)) == i <==> -0x8000_0000 <= i
  {
  }
}
