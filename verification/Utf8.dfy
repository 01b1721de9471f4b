/** UTF32ToUTF8, against the decoder of section 3 of RFC 3629.  The masks and shifts of the
    source are written as division and remainder by powers of two. */
module Utf8 {
  import opened Machine

  /** UTF32ToUTF8::print for a char32_t value. */
  function Encode(cp: nat): (bytes: seq<Byte>)
    ensures 1 <= |bytes| <= 4
  {
    if cp < 0x80 then [cp % 0x100]
    else if cp < 0x800 then [0xc0 + (cp / 0x40) % 0x20, 0x80 + cp % 0x40]
    else if cp < 0x1_0000 then
      [0xe0 + (cp / 0x1000) % 0x10, 0x80 + (cp / 0x40) % 0x40, 0x80 + cp % 0x40]
    else
      [0xf0 + (cp / 0x4_0000) % 8, 0x80 + (cp / 0x1000) % 0x40, 0x80 + (cp / 0x40) % 0x40, 0x80 + cp % 0x40]
  }

  predicate IsSurrogate(cp: int) {
    0xd800 <= cp <= 0xdfff
  }

  /** A Unicode scalar value. */
  predicate IsScalar(cp: int) {
    0 <= cp <= 0x10_ffff && !IsSurrogate(cp)
  }

  predicate IsTail(b: Byte) {
    0x80 <= b <= 0xbf
  }

  /** RFC 3629: the number of octets that a first octet announces; 0 if it cannot be one. */
  function Octets(b: Byte): nat {
    if b <= 0x7f then 1
    else if 0xc2 <= b <= 0xdf then 2
    else if 0xe0 <= b <= 0xef then 3
    else if 0xf0 <= b <= 0xf4 then 4
    else 0
  }

  /** The number a character of n octets stands for. */
  function Value(s: seq<Byte>, n: nat): int
    requires 1 <= n <= 4 && n <= |s|
  {
    var x := (i: nat) requires i < |s| => (s[i] as int) % 0x40;
    if n == 1 then s[0]
    else if n == 2 then (s[0] as int - 0xc0) * 0x40 + x(1)
    else if n == 3 then (s[0] as int - 0xe0) * 0x1000 + x(1) * 0x40 + x(2)
    else (s[0] as int - 0xf0) * 0x4_0000 + x(1) * 0x1000 + x(2) * 0x40 + x(3)
  }

  /** The least number that needs n octets. */
  function Least(n: nat): int {
    if n == 1 then 0 else if n == 2 then 0x80 else if n == 3 then 0x800 else 0x1_0000
  }

  /** RFC 3629, section 3: the character at the front of s and how many octets it takes.
      Overlong forms, surrogates and numbers above 10FFFF are not characters. */
  function Decode(s: seq<Byte>): Option<(nat, nat)> {
    if s == [] then None
    else
      var n := Octets(s[0]);
      if n == 0 || n > |s| then None
      else if (n > 1 && !IsTail(s[1])) || (n > 2 && !IsTail(s[2])) || (n > 3 && !IsTail(s[3])) then None
      else
        var cp := Value(s, n);
        if cp < Least(n) || !IsScalar(cp) then None else Some((cp, n))
  }

  function DecodeAll(s: seq<Byte>): Option<seq<nat>>
    decreases |s|
  {
    if s == [] then Some([])
    else
      match Decode(s)
      case None => None
      case Some((cp, n)) =>
        DecodeConsumes(s);
        match DecodeAll(s[n..])
        case None => None
        case Some(rest) => Some([cp] + rest)
  }

  lemma DecodeConsumes(s: seq<Byte>)
    ensures Decode(s).Some? ==> 1 <= Decode(s).value.1 <= |s|
  {
  }

  function EncodeAll(cps: seq<nat>): seq<Byte> {
    if cps == [] then [] else Encode(cps[0]) + EncodeAll(cps[1..])
  }

  lemma OneOctet(cp: nat, s: seq<Byte>)
    requires cp < 0x80 && |s| >= 1 && s[..1] == Encode(cp)
    ensures Decode(s) == Some((cp, 1))
  {
  }

  lemma TwoOctets(cp: nat, s: seq<Byte>)
    requires 0x80 <= cp < 0x800 && |s| >= 2 && s[..2] == Encode(cp)
    ensures Decode(s) == Some((cp, 2))
  {
    assert s[0] == s[..2][0] && s[1] == s[..2][1];
  }

  lemma ThreeOctets(cp: nat, s: seq<Byte>)
    requires 0x800 <= cp < 0x1_0000 && |s| >= 3 && s[..3] == Encode(cp)
    ensures Decode(s) == if IsSurrogate(cp) then None else Some((cp, 3))
  {
    assert s[0] == s[..3][0] && s[1] == s[..3][1] && s[2] == s[..3][2];
    assert cp == cp / 0x1000 * 0x1000 + (cp / 0x40) % 0x40 * 0x40 + cp % 0x40;
    assert Value(s, 3) == cp;
  }

  lemma FourOctets(cp: nat, s: seq<Byte>)
    requires 0x1_0000 <= cp <= 0x10_ffff && |s| >= 4 && s[..4] == Encode(cp)
    ensures Decode(s) == Some((cp, 4))
  {
    var a, b, c, d := cp / 0x4_0000, (cp / 0x1000) % 0x40, (cp / 0x40) % 0x40, cp % 0x40;
    FourGroups(cp);
    EncodeFour(cp);
    assert s[0] == s[..4][0] && s[1] == s[..4][1] && s[2] == s[..4][2] && s[3] == s[..4][3];
    DecodeFour(a, b, c, d, s);
  }

  lemma EncodeFour(cp: nat)
    requires 0x1_0000 <= cp <= 0x10_ffff
    ensures Encode(cp)
      == [0xf0 + cp / 0x4_0000, 0x80 + (cp / 0x1000) % 0x40, 0x80 + (cp / 0x40) % 0x40, 0x80 + cp % 0x40]
  {
  }

  lemma DecodeFour(a: nat, b: nat, c: nat, d: nat, s: seq<Byte>)
    requires a <= 4 && b < 0x40 && c < 0x40 && d < 0x40 && |s| >= 4
    requires s[0] == 0xf0 + a && s[1] == 0x80 + b && s[2] == 0x80 + c && s[3] == 0x80 + d
    requires 0x1_0000 <= a * 0x4_0000 + b * 0x1000 + c * 0x40 + d <= 0x10_ffff
    ensures Decode(s) == Some((a * 0x4_0000 + b * 0x1000 + c * 0x40 + d, 4))
  {
    assert Value(s, 4) == a * 0x4_0000 + b * 0x1000 + c * 0x40 + d;
  }

  lemma FourGroups(cp: nat)
    requires cp < 0x20_0000
    ensures cp == cp / 0x4_0000 * 0x4_0000 + (cp / 0x1000) % 0x40 * 0x1000 + (cp / 0x40) % 0x40 * 0x40 + cp % 0x40
  {
  }

  lemma DecodesScalars(s: seq<Byte>)
    ensures Decode(s).Some? ==> IsScalar(Decode(s).value.0)
  {
  }

  /** A code point survives encoding and decoding exactly when it is a scalar value. */
  lemma RoundTrip(cp: nat, rest: seq<Byte>)
    requires cp < 0x1_0000_0000
    ensures Decode(Encode(cp) + rest) == Some((cp, |Encode(cp)|)) <==> IsScalar(cp)
  {
    hide Encode, Decode;
    var s := Encode(cp) + rest;
    EncodeLength(cp);
    assert s[..|Encode(cp)|] == Encode(cp);
    if cp < 0x80 {
      OneOctet(cp, s);
    } else if cp < 0x800 {
      TwoOctets(cp, s);
    } else if cp < 0x1_0000 {
      ThreeOctets(cp, s);
    } else if cp <= 0x10_ffff {
      FourOctets(cp, s);
    } else {
      DecodesScalars(s);
    }
  }

  lemma EncodeLength(cp: nat)
    ensures |Encode(cp)| == if cp < 0x80 then 1 else if cp < 0x800 then 2 else if cp < 0x1_0000 then 3 else 4
  {
  }

  /** Text of scalar values is decoded to itself. */
  lemma {:induction false} TextRoundTrip(cps: seq<nat>)
    requires forall i :: 0 <= i < |cps| ==> IsScalar(cps[i])
    ensures DecodeAll(EncodeAll(cps)) == Some(cps)
  {
    if cps != [] {
      hide Encode, Decode;
      var e, rest := Encode(cps[0]), EncodeAll(cps[1..]);
      RoundTrip(cps[0], rest);
      TextRoundTrip(cps[1..]);
      assert (e + rest)[|e|..] == rest;
      assert [cps[0]] + cps[1..] == cps;
    }
  }

  /** Only encodings are decoded: what is read as a character is the encoding of that character. */
  lemma DecodedIsEncoded(s: seq<Byte>)
    ensures match Decode(s)
      case Some((cp, n)) => IsScalar(cp) && n <= |s| && s[..n] == Encode(cp)
      case None => true
  {
    hide Encode;
    if Decode(s).Some? {
      var (cp, n) := Decode(s).value;
      if n == 1 {
        OneEncoded(s[0]);
      } else {
        Tail(s[1]);
        if n > 2 { Tail(s[2]); }
        if n > 3 { Tail(s[3]); }
        if n == 2 {
          TwoEncoded(s[0] - 0xc0, s[1] - 0x80);
        } else if n == 3 {
          ThreeEncoded(s[0] - 0xe0, s[1] - 0x80, s[2] - 0x80);
        } else {
          FourEncoded(s[0] - 0xf0, s[1] - 0x80, s[2] - 0x80, s[3] - 0x80);
        }
      }
    }
  }

  lemma Tail(b: Byte)
    requires IsTail(b)
    ensures 0x80 <= b < 0xc0 && b % 0x40 == b - 0x80
  {
  }

  lemma OneEncoded(a: Byte)
    requires a <= 0x7f
    ensures Encode(a) == [a]
  {
  }

  lemma TwoEncoded(a: nat, b: nat)
    requires 2 <= a < 0x20 && b < 0x40
    ensures Encode(a * 0x40 + b) == [0xc0 + a, 0x80 + b]
  {
  }

  lemma ThreeEncoded(a: nat, b: nat, c: nat)
    requires a < 0x10 && b < 0x40 && c < 0x40 && a * 0x1000 + b * 0x40 + c >= 0x800
    ensures Encode(a * 0x1000 + b * 0x40 + c) == [0xe0 + a, 0x80 + b, 0x80 + c]
  {
    var cp := a * 0x1000 + b * 0x40 + c;
    assert cp / 0x40 == a * 0x40 + b && cp / 0x1000 == a;
  }

  lemma FourEncoded(a: nat, b: nat, c: nat, d: nat)
    requires a < 8 && b < 0x40 && c < 0x40 && d < 0x40
    requires a * 0x4_0000 + b * 0x1000 + c * 0x40 + d >= 0x1_0000
    ensures Encode(a * 0x4_0000 + b * 0x1000 + c * 0x40 + d) == [0xf0 + a, 0x80 + b, 0x80 + c, 0x80 + d]
  {
    var cp := a * 0x4_0000 + b * 0x1000 + c * 0x40 + d;
    assert cp / 0x40 == a * 0x1000 + b * 0x40 + c && cp / 0x1000 == a * 0x40 + b && cp / 0x4_0000 == a;
  }

  /** The examples of section 7 of RFC 3629, and the last character of each length. */
  lemma Examples()
    ensures EncodeAll([0x41, 0x2262, 0x391, 0x2e]) == [0x41, 0xe2, 0x89, 0xa2, 0xce, 0x91, 0x2e]
    ensures EncodeAll([0x7f]) == [0x7f] && EncodeAll([0x7ff]) == [0xdf, 0xbf]
    ensures EncodeAll([0xffff]) == [0xef, 0xbf, 0xbf] && EncodeAll([0x2_33b4]) == [0xf0, 0xa3, 0x8e, 0xb4]
  {
  }
}
