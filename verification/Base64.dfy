/** The decoder behind an upload, against the encoder of section 4 of RFC 4648.  The masks and
    shifts of the source are written as remainder, product and quotient by powers of two; its
    bitwise "or" joins fields that do not overlap, so it is a sum here. */
module Base64 {
  import opened Machine

  const UPPER: string := "ABCDEFGHIJKLMNOPQRSTUVWXYZ"
  const LOWER: string := "abcdefghijklmnopqrstuvwxyz"
  const OTHERS: string := "0123456789+/="

  /** base64_map; the padding character stands at position 64. */
  const BASE64_MAP: string := UPPER + LOWER + OTHERS

  /** base64_map.find from an index on. */
  function Find(c: char, start: nat): Option<nat>
    requires start <= 65
    decreases 65 - start
  {
    if start == 65 then None
    else if BASE64_MAP[start] == c then Some(start)
    else Find(c, start + 1)
  }

  /** base64_map.find. */
  function Position(c: char): Option<nat> {
    Find(c, 0)
  }

  lemma {:induction false} FindMeans(c: char, start: nat, v: nat)
    requires start <= v <= 64 && Letter(v) == c
    ensures Find(c, start).Some? && start <= Find(c, start).value <= v && Letter(Find(c, start).value) == c
    decreases 65 - start
  {
    hide UPPER, LOWER, OTHERS;
    if Letter(start) != c {
      FindMeans(c, start + 1, v);
    }
  }

  // ---------------------------------------------------------------------------------------
  // The encoder

  function Letter(v: nat): char
    requires v <= 64
  {
    BASE64_MAP[v]
  }

  /** The characters of one to three bytes. */
  function Quad(b: seq<Byte>): string
    requires 1 <= |b| <= 3
  {
    if |b| == 1 then [Letter(b[0] / 4), Letter(b[0] % 4 * 16), Letter(64), Letter(64)]
    else if |b| == 2 then
      [Letter(b[0] / 4), Letter(b[0] % 4 * 16 + b[1] / 16), Letter(b[1] % 16 * 4), Letter(64)]
    else
      [Letter(b[0] / 4), Letter(b[0] % 4 * 16 + b[1] / 16), Letter(b[1] % 16 * 4 + b[2] / 64), Letter(b[2] % 64)]
  }

  /** Section 4 of RFC 4648. */
  function Encode(b: seq<Byte>): string {
    if b == [] then "" else if |b| <= 3 then Quad(b) else Quad(b[..3]) + Encode(b[3..])
  }

  // ---------------------------------------------------------------------------------------
  // The decoder

  /** Every character is in base64_map. */
  predicate AllKnown(s: string) {
    forall i :: 0 <= i < |s| ==> Position(s[i]).Some?
  }

  function Pack(v: seq<nat>): nat
    requires |v| == 4
  {
    v[0] % 64 * 0x4_0000 + v[1] % 64 * 0x1000 + v[2] % 64 * 0x40 + v[3] % 64
  }

  function Bytes(out: nat): (b: seq<Byte>)
    ensures |b| == 3
  {
    [out / 0x1_0000 % 0x100, out / 0x100 % 0x100, out % 0x100]
  }

  /** The bytes that four positions give. */
  function Group(v: seq<nat>): seq<Byte>
    requires |v| == 4
  {
    Bytes(Pack(v))[..if v[2] == 64 then 1 else if v[1] == 64 then 2 else 3]
  }

  function Positions(s: string): seq<nat>
    requires AllKnown(s)
  {
    seq(|s|, i requires 0 <= i < |s| => Position(s[i]).value)
  }

  /** What reaches the file: the groups in front of the first that has an unknown character. */
  function Written(s: string): seq<Byte>
    requires |s| % 4 == 0
  {
    if s == "" || !AllKnown(s[..4]) then [] else Group(Positions(s[..4])) + Written(s[4..])
  }

  /** The two upload errors: a length that is not a multiple of 4, and an invalid character. */
  datatype CompileFailureReason = BadLength | BadCharacter

  function Failures(s: string): seq<CompileFailureReason> {
    if |s| % 4 != 0 then [BadLength]
    else if !AllKnown(s) then [BadCharacter]
    else []
  }

  function Shift(n: nat): nat
    requires n <= 3
  {
    if n == 0 then 0x4_0000 else if n == 1 then 0x1000 else if n == 2 then 0x40 else 1
  }

  class UploadCmd {
    const obj: string
    var failures: seq<CompileFailureReason>
    /** The content of the file that is written. */
    var file: seq<Byte>

    constructor (obj: string, failures: seq<CompileFailureReason>, file: seq<Byte>)
      ensures this.obj == obj && this.failures == failures && this.file == file
    {
      this.obj, this.failures, this.file := obj, failures, file;
    }

    method Run()
      modifies this
      ensures failures == Failures(obj)
      ensures |obj| % 4 != 0 <==> failures == [BadLength]
      ensures failures == [] <==> |obj| % 4 == 0 && forall i :: 0 <= i < |obj| ==> Rank(obj[i]) >= 0
      ensures failures == [] || |failures| == 1
      ensures file == if |obj| % 4 != 0 then old(file) else Written(obj)
    {
      hide *;
      FailuresMean(obj);
      failures := [];
      if |obj| % 4 != 0 {
        failures := failures + [BadLength];
        FailureMeans(obj);
        return;
      }
      file := [];
      var i := 0;
      Starts(obj);
      while i < |obj|
        invariant i <= |obj| && i % 4 == 0 && failures == []
        invariant Progress(obj, i, file)
      {
        var inValue := ReadGroup(i);
        if |inValue| < 4 {
          failures := failures + [BadCharacter];
          StopsAt(obj, i, file, |inValue|);
          return;
        }
        var bytes := Decode(inValue);
        GoesOn(obj, i, file, inValue);
        file := file + bytes;
        i := i + 4;
      }
      Ends(obj, i, file);
    }

    /** The positions of the next four characters, as far as they are known. */
    method ReadGroup(i: nat) returns (inValue: seq<nat>)
      requires i + 4 <= |obj|
      ensures |inValue| <= 4 && forall k :: 0 <= k < |inValue| ==> Position(obj[i + k]) == Some(inValue[k])
      ensures |inValue| < 4 ==> Position(obj[i + |inValue|]).None?
    {
      hide Position;
      inValue := [];
      var j := 0;
      while j < 4
        invariant 0 <= j <= 4 && |inValue| == j
        invariant forall k :: 0 <= k < j ==> Position(obj[i + k]) == Some(inValue[k])
      {
        var pos := Position(obj[i + j]);
        if pos.None? {
          return;
        }
        inValue := inValue + [pos.value];
        j := j + 1;
      }
    }
  }

  /** The two inner loops: the value of four positions, and the bytes written from it. */
  method Decode(inValue: seq<nat>) returns (bytes: seq<Byte>)
    requires |inValue| == 4
    ensures bytes == Group(inValue)
    ensures |bytes| == if inValue[2] == 64 then 1 else if inValue[1] == 64 then 2 else 3
  {
    var numOutputBytes := if inValue[2] == 64 then 1 else if inValue[1] == 64 then 2 else 3;
    var outValue := 0;
    var n := 3;
    while n >= 0
      invariant -1 <= n <= 3
      invariant outValue == (if n < 0 then inValue[0] % 64 * 0x4_0000 else 0)
        + (if n < 1 then inValue[1] % 64 * 0x1000 else 0)
        + (if n < 2 then inValue[2] % 64 * 0x40 else 0) + (if n < 3 then inValue[3] % 64 else 0)
    {
      outValue := outValue + inValue[n] % 64 * Shift(n);
      n := n - 1;
    }
    bytes := [];
    n := 0;
    ghost var all := Bytes(outValue);
    while n < numOutputBytes
      invariant 0 <= n <= numOutputBytes && bytes == all[..n]
    {
      var shifted := if n == 0 then outValue / 0x1_0000 else if n == 1 then outValue / 0x100 else outValue;
      var b: Byte := shifted % 0x100;
      bytes := bytes + [b];
      n := n + 1;
    }
  }

  /** The file holds what the first i characters give, and the rest is still to come. */
  ghost predicate Progress(s: string, i: nat, file: seq<Byte>) {
    && i <= |s| && i % 4 == 0 && |s| % 4 == 0
    && AllKnown(s[..i])
    && Written(s) == file + Written(s[i..])
  }

  lemma FailuresMean(s: string)
    ensures |s| % 4 != 0 <==> Failures(s) == [BadLength]
    ensures Failures(s) == [] <==> |s| % 4 == 0 && forall i :: 0 <= i < |s| ==> Rank(s[i]) >= 0
    ensures Failures(s) == [] || |Failures(s)| == 1
  {
    hide Position, Rank;
    forall i | 0 <= i < |s| ensures Position(s[i]).Some? <==> Rank(s[i]) >= 0 {
      PositionIsRank(s[i]);
    }
  }

  lemma FailureMeans(s: string)
    requires |s| % 4 != 0
    ensures Failures(s) == [BadLength]
  {
  }

  lemma Starts(s: string)
    requires |s| % 4 == 0
    ensures Progress(s, 0, [])
  {
  }

  lemma Ends(s: string, i: nat, file: seq<Byte>)
    requires Progress(s, i, file) && i == |s|
    ensures file == Written(s) && Failures(s) == []
  {
    assert s[..i] == s && file + [] == file;
  }

  lemma StopsAt(s: string, i: nat, file: seq<Byte>, j: nat)
    requires Progress(s, i, file) && i + 4 <= |s| && j < 4 && Position(s[i + j]).None?
    ensures file == Written(s) && Failures(s) == [BadCharacter]
  {
    hide Group, Position;
    assert s[i..][..4][j] == s[i + j];
    assert file + [] == file;
  }

  lemma GoesOn(s: string, i: nat, file: seq<Byte>, v: seq<nat>)
    requires Progress(s, i, file) && i + 4 <= |s| && |v| == 4
    requires forall k :: 0 <= k < 4 ==> Position(s[i + k]) == Some(v[k])
    ensures Progress(s, i + 4, file + Group(v))
  {
    hide Group, Position, Written;
    var q, t := s[i..i + 4], s[i + 4..];
    forall k | 0 <= k < 4 ensures Position(q[k]) == Some(v[k]) {
      assert q[k] == s[i + k];
    }
    assert Positions(q) == v;
    WrittenStep(q, t);
    assert s[i..] == q + t;
    assert file + (Group(v) + Written(t)) == file + Group(v) + Written(t);
    KnownConcat(s[..i], q);
    assert s[..i] + q == s[..i + 4];
  }

  lemma WrittenStep(q: string, t: string)
    requires |q| == 4 && AllKnown(q) && |t| % 4 == 0
    ensures Written(q + t) == Group(Positions(q)) + Written(t)
  {
  }

  /** A group with a character outside the alphabet ends the file. */
  lemma WrittenStops(q: string, t: string)
    requires |q| == 4 && |t| % 4 == 0 && exists i :: 0 <= i < 4 && Rank(q[i]) < 0
    ensures Written(q + t) == []
  {
    hide Rank, Position;
    var i :| 0 <= i < 4 && Rank(q[i]) < 0;
    PositionIsRank(q[i]);
    assert (q + t)[..4] == q;
  }

  lemma KnownConcat(a: string, b: string)
    requires AllKnown(a) && AllKnown(b)
    ensures AllKnown(a + b)
  {
  }

  // ---------------------------------------------------------------------------------------
  // The round trip

  /** Where a character stands in the alphabet of RFC 4648. */
  function Rank(c: char): int {
    if 'A' <= c <= 'Z' then c as int - 'A' as int
    else if 'a' <= c <= 'z' then c as int - 'a' as int + 26
    else if '0' <= c <= '9' then c as int - '0' as int + 52
    else if c == '+' then 62
    else if c == '/' then 63
    else if c == '=' then 64
    else -1
  }

  lemma UpperRank(i: nat)
    requires i < 26
    ensures Rank(UPPER[i]) == i
  {
  }

  lemma LowerRank(i: nat)
    requires i < 26
    ensures Rank(LOWER[i]) == i + 26
  {
  }

  lemma OtherRank(i: nat)
    requires i < 13
    ensures Rank(OTHERS[i]) == i + 52
  {
  }

  lemma MapRank(i: nat)
    requires i <= 64
    ensures Rank(Letter(i)) == i
  {
    hide Rank;
    if i < 26 {
      UpperRank(i);
    } else if i < 52 {
      LowerRank(i - 26);
    } else {
      OtherRank(i - 52);
    }
  }

  /** Finding a character of the map gives back its position. */
  lemma FindLetter(v: nat)
    requires v <= 64
    ensures Position(Letter(v)) == Some(v)
  {
    hide Rank, Letter, Find;
    FindMeans(Letter(v), 0, v);
    MapRank(v);
    MapRank(Find(Letter(v), 0).value);
  }

  lemma FindHas(c: char, start: nat)
    requires start <= 65
    ensures Find(c, start).Some? ==> Find(c, start).value <= 64 && Letter(Find(c, start).value) == c
    decreases 65 - start
  {
    hide UPPER, LOWER, OTHERS;
    if start < 65 && Letter(start) != c {
      FindHas(c, start + 1);
    }
  }

  /** The letter of a rank. */
  lemma LetterOfRank(c: char)
    requires Rank(c) >= 0
    ensures Rank(c) <= 64 && Letter(Rank(c)) == c
  {
  }

  /** A character is known exactly when it belongs to the alphabet, and found at its rank. */
  lemma PositionIsRank(c: char)
    ensures Position(c) == if Rank(c) < 0 then None else Some(Rank(c))
  {
    hide Rank, Letter, Find;
    if Rank(c) >= 0 {
      LetterOfRank(c);
      FindLetter(Rank(c));
    } else {
      FindHas(c, 0);
      if Find(c, 0).Some? {
        MapRank(Find(c, 0).value);
      }
    }
  }

  /** The test vectors of section 10 of RFC 4648 for "f", "fo", "foo" and "foob". */
  lemma Vectors()
    ensures Encode([0x66]) == "Zg==" && Encode([0x66, 0x6f]) == "Zm8="
    ensures Encode([0x66, 0x6f, 0x6f]) == "Zm9v" && Encode([0x66, 0x6f, 0x6f, 0x62]) == "Zm9vYg=="
  {
    hide Letter, BASE64_MAP, UPPER, LOWER, OTHERS;
    LetterOfRank('Z');
    LetterOfRank('g');
    LetterOfRank('m');
    LetterOfRank('8');
    LetterOfRank('9');
    LetterOfRank('v');
    LetterOfRank('Y');
    LetterOfRank('=');
    assert [0x66, 0x6f, 0x6f, 0x62][3..] == [0x62] && [0x66, 0x6f, 0x6f, 0x62][..3] == [0x66, 0x6f, 0x6f];
  }

  lemma QuadIsKnown(v: seq<nat>, s: string)
    requires |v| == |s| == 4 && forall i :: 0 <= i < 4 ==> v[i] <= 64 && s[i] == Letter(v[i])
    ensures AllKnown(s) && Positions(s) == v
  {
    hide Position, Letter;
    FindLetter(v[0]);
    FindLetter(v[1]);
    FindLetter(v[2]);
    FindLetter(v[3]);
    assert AllKnown(s);
    assert Positions(s) == v;
  }

  lemma PackOfOne(a: nat, b: nat)
    ensures Pack([a, b, 64, 64]) == Pack([a, b, 0, 64])
  {
  }

  lemma GroupOfOne(x: Byte)
    ensures Group([x / 4, x % 4 * 16, 64, 64]) == [x]
  {
    hide Bytes, Pack;
    PackSextets(x / 4, x % 4 * 16, 0, 64);
    SextetsMakeBytes(x, 0, 0);
    PackOfOne(x / 4, x % 4 * 16);
    BytesOfSum(x * 0x1_0000, x, 0, 0);
  }

  lemma SextetsMakeBytes(x: Byte, y: Byte, z: Byte)
    ensures x % 4 * 16 + y / 16 < 64 && y % 16 * 4 + z / 64 < 64
    ensures x / 4 * 0x4_0000 + (x % 4 * 16 + y / 16) * 0x1000 + (y % 16 * 4 + z / 64) * 0x40 + z % 64
         == x * 0x1_0000 + y * 0x100 + z
  {
  }

  lemma BytesOfSum(out: nat, x: Byte, y: Byte, z: Byte)
    requires out == x * 0x1_0000 + y * 0x100 + z
    ensures Bytes(out) == [x, y, z]
  {
    assert out / 0x1_0000 == x && out / 0x100 == x * 0x100 + y;
  }

  lemma PackSextets(a: nat, b: nat, c: nat, d: nat)
    requires a < 64 && b < 64 && c < 64
    ensures Pack([a, b, c, d]) == a * 0x4_0000 + b * 0x1000 + c * 0x40 + d % 64
  {
  }

  lemma GroupOfSextets(a: nat, b: nat, c: nat, d: nat, x: Byte, y: Byte, z: Byte)
    requires a < 64 && b < 64 && c < 64 && d <= 64
    requires a * 0x4_0000 + b * 0x1000 + c * 0x40 + d % 64 == x * 0x1_0000 + y * 0x100 + z
    ensures Group([a, b, c, d]) == [x, y, z]
  {
    hide Bytes, Pack;
    PackSextets(a, b, c, d);
    BytesOfSum(a * 0x4_0000 + b * 0x1000 + c * 0x40 + d % 64, x, y, z);
  }

  lemma GroupOfTwo(x: Byte, y: Byte)
    ensures Group([x / 4, x % 4 * 16 + y / 16, y % 16 * 4, 64]) == [x, y, 0]
  {
    hide Group;
    SextetsMakeBytes(x, y, 0);
    GroupOfSextets(x / 4, x % 4 * 16 + y / 16, y % 16 * 4, 64, x, y, 0);
  }

  lemma GroupOfThree(x: Byte, y: Byte, z: Byte)
    ensures Group([x / 4, x % 4 * 16 + y / 16, y % 16 * 4 + z / 64, z % 64]) == [x, y, z]
  {
    hide Group;
    SextetsMakeBytes(x, y, z);
    GroupOfSextets(x / 4, x % 4 * 16 + y / 16, y % 16 * 4 + z / 64, z % 64, x, y, z);
  }

  lemma GroupOfQuad(b: seq<Byte>)
    requires 1 <= |b| <= 3
    ensures AllKnown(Quad(b)) && Group(Positions(Quad(b))) == if |b| == 2 then b + [0] else b
  {
    hide Position, Letter, AllKnown, Positions, Group;
    if |b| == 1 {
      QuadIsKnown([b[0] / 4, b[0] % 4 * 16, 64, 64], Quad(b));
      GroupOfOne(b[0]);
    } else if |b| == 2 {
      QuadIsKnown([b[0] / 4, b[0] % 4 * 16 + b[1] / 16, b[1] % 16 * 4, 64], Quad(b));
      GroupOfTwo(b[0], b[1]);
    } else {
      QuadIsKnown([b[0] / 4, b[0] % 4 * 16 + b[1] / 16, b[1] % 16 * 4 + b[2] / 64, b[2] % 64], Quad(b));
      GroupOfThree(b[0], b[1], b[2]);
    }
  }

  lemma EncodeStep(b: seq<Byte>, first: seq<Byte>, rest: seq<Byte>)
    requires b == first + rest && 1 <= |first| <= 3 && (rest != [] ==> |first| == 3)
    ensures |Quad(first)| == 4 && Encode(b) == Quad(first) + Encode(rest)
  {
    hide Letter;
    if rest == [] {
      assert b == first;
    } else {
      assert b[..3] == first && b[3..] == rest;
    }
  }

  /** An encoded upload is accepted, and it gives the bytes themselves exactly when their number
      is not 2 modulo 3; otherwise a zero byte follows them. */
  lemma {:induction false} UploadRoundTrip(b: seq<Byte>)
    ensures |Encode(b)| % 4 == 0 && AllKnown(Encode(b)) && Failures(Encode(b)) == []
    ensures Written(Encode(b)) == if |b| % 3 == 2 then b + [0] else b
    ensures Written(Encode(b)) == b <==> |b| % 3 != 2
    decreases |b|
  {
    hide *;
    if b == [] {
      EncodeNothing();
    } else {
      var n := if |b| <= 3 then |b| else 3;
      var first, rest := b[..n], b[n..];
      GroupOfQuad(first);
      UploadRoundTrip(rest);
      EncodeStep(b, first, rest);
      WrittenStep(Quad(first), Encode(rest));
      KnownConcat(Quad(first), Encode(rest));
    }
    NoFailures(Encode(b));
  }

  lemma EncodeNothing()
    ensures Encode([]) == "" && AllKnown("") && Written("") == []
  {
  }

  lemma NoFailures(s: string)
    requires |s| % 4 == 0 && AllKnown(s)
    ensures Failures(s) == []
  {
  }
}
