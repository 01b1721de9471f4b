/** tryGetString and its 16- and 32-bit forms: text is read from the traced process one word
    at a time, with characters that may straddle words. */
module StringReader {
  import opened Machine
  import Arith
  import Utf8

  type Memory = Word -> Word

  /** The three forms of text, by the size of their units. */
  datatype Form = Utf8Text | Utf16Text | Utf32Text

  function UnitSize(f: Form): nat {
    match f case Utf8Text => 1 case Utf16Text => 2 case Utf32Text => 4
  }

  /** How many units a word of memory holds. */
  function PerWord(f: Form): nat {
    match f case Utf8Text => 8 case Utf16Text => 4 case Utf32Text => 2
  }

  /** How many units a number of words hold. */
  function UnitsIn(words: nat, f: Form): nat {
    match f case Utf8Text => 8 * words case Utf16Text => 4 * words case Utf32Text => 2 * words
  }

  // ---------------------------------------------------------------------------------------
  // The units of a word, and of memory from an address on

  function Power256(n: nat): (p: nat)
    ensures p > 0
  {
    if n == 0 then 1 else 256 * Power256(n - 1)
  }

  /** (val >> (8 * size * i)) masked to size bytes. */
  function UnitOf(val: Word, f: Form, i: nat): nat {
    (val / Power256(UnitSize(f) * i)) % Power256(UnitSize(f))
  }

  /** The units of a word, lowest first. */
  function Units(val: Word, f: Form): (us: seq<int>)
    ensures |us| == PerWord(f)
  {
    seq<int>(PerWord(f), i requires 0 <= i < PerWord(f) => UnitOf(val, f, i))
  }

  /** The unit at index j of the text that starts at addr. */
  function UnitAt(mem: Memory, addr: Word, f: Form, j: nat): nat {
    UnitOf(mem(Add(addr, 8 * (j / PerWord(f)))), f, j % PerWord(f))
  }

  // ---------------------------------------------------------------------------------------
  // Reading unit by unit

  /** A text in memory: its unit at each index. */
  type Text = nat -> nat

  /** The length that a lead byte announces; 0 if it is not one. */
  function NeedChars(c: int): nat {
    if 0xc0 <= c < 0xe0 then 2 else if 0xe0 <= c < 0xf0 then 3 else if 0xf0 <= c < 0xf8 then 4 else 0
  }

  predicate IsContinuation(c: int) {
    0x80 <= c < 0xc0
  }

  /** Bytes j up to j + n are continuations. */
  predicate Continues(b: Text, j: nat, n: nat)
    decreases n
  {
    n == 0 || (IsContinuation(b(j)) && Continues(b, j + 1, n - 1))
  }

  predicate IsHigh(c: int) { 0xd800 <= c <= 0xdbff }

  predicate IsLow(c: int) { 0xdc00 <= c <= 0xdfff }

  /** 0x10000 | ((c1 & 0x3ff) << 10) | (c2 & 0x3ff). */
  function Combine(c1: nat, c2: nat): nat {
    var v := (c1 % 0x400) * 0x400 + c2 % 0x400;
    if (v / 0x1_0000) % 2 == 1 then v else v + 0x1_0000
  }

  /** How many units the whole character at index j takes; 0 where the text ends there, by a
      NUL or a malformed sequence. */
  function CharLength(b: Text, f: Form, j: nat): nat {
    var c := b(j);
    if c == 0 then 0
    else if f.Utf8Text? then
      if c < 0x80 then 1
      else if NeedChars(c) > 0 && Continues(b, j + 1, NeedChars(c) - 1) then NeedChars(c)
      else 0
    else if f.Utf16Text? then
      if IsHigh(c) then if IsLow(b(j + 1)) then 2 else 0
      else if IsLow(c) then 0
      else 1
    else if Utf8.IsScalar(c) then 1
    else 0
  }

  function Slice(b: Text, j: nat, n: nat): (s: seq<int>)
    ensures |s| == n
  {
    seq<int>(n, i requires 0 <= i < n => b(j + i))
  }

  /** The bytes shown for the whole character at index j. */
  function Shown(b: Text, f: Form, j: nat): seq<int> {
    if f.Utf8Text? then Slice(b, j, CharLength(b, f, j))
    else if CharLength(b, f, j) == 2 then Utf8.Encode(Combine(b(j), b(j + 1)))
    else Utf8.Encode(b(j))
  }

  /** At most left whole characters from index j on, one after the other. */
  function ReadText(b: Text, f: Form, j: nat, left: nat): seq<int>
    decreases left
  {
    if left == 0 || CharLength(b, f, j) == 0 then []
    else Shown(b, f, j) + ReadText(b, f, j + CharLength(b, f, j), left - 1)
  }

  /** A limit below one still lets one character through. */
  function Limit(max: int): nat {
    if max < 1 then 1 else max
  }

  /** The text in memory at an address, as units of a given size. */
  ghost function TextAt(mem: Memory, addr: Word, f: Form): Text
  {
    (j: nat) => UnitAt(mem, addr, f, j)
  }

  // ---------------------------------------------------------------------------------------
  // Reading word by word

  /** The queue holds the units of the text from index pos on. */
  ghost predicate Holds(chars: seq<int>, b: Text, pos: nat) {
    forall k :: 0 <= k < |chars| ==> chars[k] == b(pos + k)
  }

  /** The next word of memory continues the queue. */
  lemma ReadWord(mem: Memory, addr: Word, f: Form, words: nat, chars: seq<int>, pos: nat)
    requires pos + |chars| == UnitsIn(words, f)
    requires Holds(chars, TextAt(mem, addr, f), pos)
    ensures Holds(chars + Units(mem(Add(addr, 8 * words)), f), TextAt(mem, addr, f), pos)
  {
    var us := Units(mem(Add(addr, 8 * words)), f);
    forall k | 0 <= k < |us| ensures us[k] == UnitAt(mem, addr, f, UnitsIn(words, f) + k) {
      UnitInWord(words, f, k);
    }
  }

  lemma UnitInWord(words: nat, f: Form, k: nat)
    requires k < PerWord(f)
    ensures (UnitsIn(words, f) + k) / PerWord(f) == words && (UnitsIn(words, f) + k) % PerWord(f) == k
  {
  }

  /** The loop that moves one character's bytes out of the queue, as far as they continue it. */
  method TakeCharacter(chars: seq<int>, needChars: nat) returns (utf8char: seq<int>, ok: bool)
    requires 1 <= needChars <= |chars|
    ensures ok <==> forall k :: 1 <= k < needChars ==> IsContinuation(chars[k])
    ensures ok ==> utf8char == chars[..needChars]
  {
    utf8char, ok := [chars[0]], true;
    var i := 1;
    while i < needChars && ok
      invariant 1 <= i <= needChars && utf8char == chars[..i]
      invariant forall k :: 1 <= k < i ==> IsContinuation(chars[k])
      invariant !ok ==> i < needChars && !IsContinuation(chars[i])
      decreases ok, needChars - i
    {
      if IsContinuation(chars[i]) {
        utf8char := utf8char + [chars[i]];
        i := i + 1;
      } else {
        ok := false;
      }
    }
  }

  lemma {:induction false} ContinuesInQueue(b: Text, pos: nat, chars: seq<int>, lo: nat, hi: nat)
    requires lo <= hi <= |chars| && Holds(chars, b, pos)
    ensures Continues(b, pos + lo, hi - lo) <==> (forall k :: lo <= k < hi ==> IsContinuation(chars[k]))
    decreases hi - lo
  {
    if lo < hi {
      ContinuesInQueue(b, pos, chars, lo + 1, hi);
      assert chars[lo] == b(pos + lo);
      assert Continues(b, pos + lo, hi - lo)
        == (IsContinuation(chars[lo]) && Continues(b, pos + (lo + 1), hi - (lo + 1)));
    }
  }

  lemma HeadOfQueue(chars: seq<int>, b: Text, pos: nat)
    requires chars != [] && Holds(chars, b, pos)
    ensures chars[0] == b(pos)
    ensures |chars| > 1 ==> chars[1] == b(pos + 1)
  {
  }

  lemma WholeWords(words: nat, f: Form)
    ensures UnitsIn(words, f) > 0 ==> UnitsIn(words, f) >= PerWord(f)
    ensures UnitsIn(words + 1, f) == UnitsIn(words, f) + PerWord(f)
  {
  }

  /** What has been emitted and what is still to come make up the whole text. */
  ghost predicate Composed(whole: seq<int>, out: seq<int>, b: Text, f: Form, pos: nat, left: nat) {
    whole == out + ReadText(b, f, pos, left)
  }

  lemma StopsHere(whole: seq<int>, out: seq<int>, b: Text, f: Form, pos: nat, left: nat)
    requires Composed(whole, out, b, f, pos, left) && (CharLength(b, f, pos) == 0 || left == 0)
    ensures whole == out
  {
  }

  /** One whole character moves from the queue to the output. */
  lemma OneCharacter(whole: seq<int>, out: seq<int>, b: Text, f: Form, pos: nat, left: nat, chars: seq<int>)
    requires Composed(whole, out, b, f, pos, left) && left > 0 && Holds(chars, b, pos)
    requires 1 <= CharLength(b, f, pos) <= |chars|
    ensures var n := CharLength(b, f, pos);
      Composed(whole, out + Shown(b, f, pos), b, f, pos + n, left - 1) && Holds(chars[n..], b, pos + n)
  {
    hide CharLength, Shown;
    var n, us := CharLength(b, f, pos), Shown(b, f, pos);
    assert out + (us + ReadText(b, f, pos + n, left - 1)) == out + us + ReadText(b, f, pos + n, left - 1);
  }

  /** Another word goes into the queue. */
  method ReadMore(mem: Memory, ghost addr: Word, f: Form, chars: seq<int>, ptrToStr: Word,
                  ghost pos: nat, ghost words: nat)
    returns (more: seq<int>, next: Word)
    requires pos + |chars| == UnitsIn(words, f) && ptrToStr == Add(addr, 8 * words)
    requires Holds(chars, TextAt(mem, addr, f), pos)
    ensures Holds(more, TextAt(mem, addr, f), pos) && |more| == |chars| + PerWord(f)
    ensures next == Add(addr, 8 * (words + 1))
  {
    ReadWord(mem, addr, f, words, chars, pos);
    more := chars + Units(mem(ptrToStr), f);
    next := Add(ptrToStr, 8);
  }

  /** What the front of the queue allows: nothing more, nothing before another word is read,
      or a character of count units with the bytes that show it. */
  datatype Outcome = Stop | NeedMore | Took(count: nat, bytes: seq<int>)

  /** The contract of the three ways to look at the front of the queue. */
  ghost predicate Looked(o: Outcome, chars: seq<int>, b: Text, f: Form, pos: nat) {
    && (o.Stop? ==> CharLength(b, f, pos) == 0)
    && (o.NeedMore? ==> |chars| < PerWord(f))
    && (o.Took? ==> 1 <= o.count <= |chars| && o.count == CharLength(b, f, pos) && o.bytes == Shown(b, f, pos))
  }

  /** The body of the loop of tryGetString. */
  method TakeUtf8(chars: seq<int>, ghost b: Text, ghost pos: nat) returns (o: Outcome)
    requires chars != [] && Holds(chars, b, pos)
    ensures Looked(o, chars, b, Utf8Text, pos)
  {
    HeadOfQueue(chars, b, pos);
    var c := chars[0];
    if c == 0 { return Stop; }
    if c < 0x80 {
      assert [c] == Slice(b, pos, 1);
      return Took(1, [c]);
    }
    var needChars := NeedChars(c);
    if needChars == 0 { return Stop; }
    if needChars > |chars| { return NeedMore; }
    var utf8char, ok := TakeCharacter(chars, needChars);
    ContinuesInQueue(b, pos, chars, 1, needChars);
    assert chars[..needChars] == Slice(b, pos, needChars);
    o := if ok then Took(needChars, utf8char) else Stop;
  }

  /** The body of the loop of tryGetString16. */
  method TakeUtf16(chars: seq<int>, ghost b: Text, ghost pos: nat) returns (o: Outcome)
    requires chars != [] && Holds(chars, b, pos)
    ensures Looked(o, chars, b, Utf16Text, pos)
  {
    HeadOfQueue(chars, b, pos);
    var c := chars[0];
    if c == 0 { return Stop; }
    if c >= 0xd800 && c <= 0xdbff {
      if |chars| < 2 { return NeedMore; }
      var c2 := chars[1];
      if c2 >= 0xdc00 && c2 <= 0xdfff {
        return Took(2, Utf8.Encode(Combine(c, c2)));
      }
      return Stop;
    }
    if c >= 0xdc00 && c <= 0xdfff { return Stop; }
    o := Took(1, Utf8.Encode(c));
  }

  /** The body of the loop of tryGetString32. */
  method TakeUtf32(chars: seq<int>, ghost b: Text, ghost pos: nat) returns (o: Outcome)
    requires chars != [] && Holds(chars, b, pos)
    ensures Looked(o, chars, b, Utf32Text, pos)
  {
    HeadOfQueue(chars, b, pos);
    var c := chars[0];
    if c == 0 { return Stop; }
    if c > 0x10_ffff || (c >= 0xd800 && c <= 0xdfff) { return Stop; }
    o := Took(1, Utf8.Encode(c));
  }

  method Take(chars: seq<int>, f: Form, ghost b: Text, ghost pos: nat) returns (o: Outcome)
    requires chars != [] && Holds(chars, b, pos)
    ensures Looked(o, chars, b, f, pos)
  {
    match f
    case Utf8Text => o := TakeUtf8(chars, b, pos);
    case Utf16Text => o := TakeUtf16(chars, b, pos);
    case Utf32Text => o := TakeUtf32(chars, b, pos);
  }

  /** The queue, the next address to read and the output so far. */
  datatype Reader = Reader(chars: seq<int>, ptrToStr: Word, out: seq<int>)

  /** The queue continues the output: pos units have been taken from words words of memory,
      and left more characters of the whole text may follow. */
  ghost predicate Reading(r: Reader, whole: seq<int>, mem: Memory, addr: Word, f: Form, pos: nat, words: nat, left: nat)
  {
    && Holds(r.chars, TextAt(mem, addr, f), pos) && pos + |r.chars| == UnitsIn(words, f)
    && r.ptrToStr == Add(addr, 8 * words)
    && Composed(whole, r.out, TextAt(mem, addr, f), f, pos, left)
  }

  lemma StartsReading(mem: Memory, addr: Word, f: Form, left: nat)
    ensures Reading(Reader([], addr, []), ReadText(TextAt(mem, addr, f), f, 0, left), mem, addr, f, 0, 0, left)
  {
    hide ReadText, TextAt;
    var whole := ReadText(TextAt(mem, addr, f), f, 0, left);
    assert [] + whole == whole;
  }

  /** One turn of the loop: fetch a word if one is due, then take a character. */
  method Turn(r: Reader, readMoreChars: bool, mem: Memory, ghost addr: Word, f: Form, ghost whole: seq<int>,
              ghost pos: nat, ghost words: nat, ghost left: nat)
    returns (o: Outcome, next: Reader, ghost pos': nat, ghost words': nat)
    requires Reading(r, whole, mem, addr, f, pos, words, left)
    requires left > 0 && (r.chars != [] || readMoreChars)
    ensures o.Stop? ==> next.out == whole
    ensures o.NeedMore? ==> !readMoreChars && pos' == pos > 0 && Reading(next, whole, mem, addr, f, pos', words', left)
    ensures o.Took? ==> pos' > pos && Reading(next, whole, mem, addr, f, pos', words', left - 1)
    ensures o.Took? && left == 1 ==> next.out == whole
  {
    ghost var b := TextAt(mem, addr, f);
    var chars, ptrToStr := r.chars, r.ptrToStr;
    pos', words' := pos, words;
    hide TextAt, UnitOf, Units, UnitAt, Holds, CharLength, Shown, Composed, UnitsIn;
    WholeWords(words, f);
    if readMoreChars {
      chars, ptrToStr := ReadMore(mem, addr, f, chars, ptrToStr, pos, words);
      words' := words + 1;
    }
    o := Take(chars, f, b, pos);
    match o {
    case Stop =>
      StopsHere(whole, r.out, b, f, pos, left);
      next := Reader(chars, ptrToStr, r.out);
    case NeedMore =>
      next := Reader(chars, ptrToStr, r.out);
    case Took(count, bytes) =>
      OneCharacter(whole, r.out, b, f, pos, left, chars);
      next := Reader(chars[count..], ptrToStr, r.out + bytes);
      pos' := pos + count;
      if left == 1 {
        StopsHere(whole, next.out, b, f, pos', 0);
      }
    }
  }

  /** tryGetString, tryGetString16 and tryGetString32, for units of 1, 2 and 4 bytes: what is
      shown between the quotation marks; None is the text NULL. */
  method TryGetString(addr: Word, mem: Memory, f: Form, max: int) returns (s: Option<seq<int>>)
    ensures s == if addr == 0 then None else Some(ReadText(TextAt(mem, addr, f), f, 0, if max < 1 then 1 else max))
  {
    hide TextAt, ReadText, Reading;
    if addr == 0 { return None; }
    ghost var whole := ReadText(TextAt(mem, addr, f), f, 0, Limit(max));
    StartsReading(mem, addr, f, Limit(max));
    var r := Reader([], addr, []);
    var charCount := 0;
    var readMoreChars, stringOk := true, true;
    ghost var pos: nat, words: nat := 0, 0;
    while stringOk
      invariant charCount <= Limit(max) && (stringOk ==> charCount < Limit(max))
      invariant stringOk && charCount == 0 ==> pos == 0
      invariant r.chars != [] || readMoreChars
      invariant if stringOk then Reading(r, whole, mem, addr, f, pos, words, Limit(max) - charCount) else r.out == whole
      decreases if stringOk then 1 + 2 * (Limit(max) - charCount) + (if readMoreChars then 0 else 1) else 0
    {
      var o;
      o, r, pos, words := Turn(r, readMoreChars, mem, addr, f, whole, pos, words, Limit(max) - charCount);
      if o.Took? {
        charCount := charCount + 1;
      }
      readMoreChars := o.NeedMore? || r.chars == [];
      stringOk := !o.Stop? && charCount < max;
    }
    return Some(r.out);
  }

  // ---------------------------------------------------------------------------------------
  // The bytes of memory

  /** Memory from addr on holds the bytes m, in words that are little-endian. */
  ghost predicate Stores(mem: Memory, addr: Word, m: Text) {
    && (forall j: nat :: m(j) < 0x100)
    && forall k: nat :: mem(Add(addr, 8 * k)) ==
         m(8 * k) + 0x100 * m(8 * k + 1) + 0x1_0000 * m(8 * k + 2) + 0x100_0000 * m(8 * k + 3) +
         0x1_0000_0000 * m(8 * k + 4) + 0x100_0000_0000 * m(8 * k + 5) +
         0x1_0000_0000_0000 * m(8 * k + 6) + 0x100_0000_0000_0000 * m(8 * k + 7)
  }

  /** The little-endian value of n bytes from j on. */
  function Little(m: Text, j: nat, n: nat): nat
    decreases n
  {
    if n == 0 then 0 else m(j) + 0x100 * Little(m, j + 1, n - 1)
  }

  lemma Shifted(first: nat, low: nat, p: nat, high: nat)
    ensures first + 0x100 * (low + p * high) == first + 0x100 * low + (0x100 * p) * high
  {
  }

  lemma {:induction false} LittleSplits(m: Text, j: nat, a: nat, b: nat)
    ensures Little(m, j, a + b) == Little(m, j, a) + Power256(a) * Little(m, j + a, b)
    decreases a
  {
    if a > 0 {
      LittleSplits(m, j + 1, a - 1, b);
      assert j + 1 + (a - 1) == j + a && a + b - 1 == a - 1 + b;
      Shifted(m(j), Little(m, j + 1, a - 1), Power256(a - 1), Little(m, j + a, b));
    }
  }

  lemma {:induction false} LittleFits(m: Text, j: nat, n: nat)
    requires forall i: nat :: m(i) < 0x100
    ensures Little(m, j, n) < Power256(n)
    decreases n
  {
    if n > 0 {
      LittleFits(m, j + 1, n - 1);
    }
  }

  lemma LittleShort(m: Text, j: nat)
    ensures Little(m, j, 1) == m(j)
    ensures Little(m, j, 2) == m(j) + 0x100 * m(j + 1)
    ensures Little(m, j, 4) == m(j) + 0x100 * m(j + 1) + 0x1_0000 * m(j + 2) + 0x100_0000 * m(j + 3)
  {
    assert Little(m, j + 1, 1) == m(j + 1) && Little(m, j + 3, 1) == m(j + 3);
    assert Little(m, j + 2, 2) == m(j + 2) + 0x100 * m(j + 3);
    assert Little(m, j + 1, 3) == m(j + 1) + 0x100 * Little(m, j + 2, 2);
  }

  lemma LittleWord(m: Text, j: nat)
    ensures Little(m, j, 8) ==
      m(j) + 0x100 * m(j + 1) + 0x1_0000 * m(j + 2) + 0x100_0000 * m(j + 3) +
      0x1_0000_0000 * m(j + 4) + 0x100_0000_0000 * m(j + 5) +
      0x1_0000_0000_0000 * m(j + 6) + 0x100_0000_0000_0000 * m(j + 7)
  {
    LittleSplits(m, j, 4, 4);
    LittleShort(m, j);
    LittleShort(m, j + 4);
    assert Power256(4) == 0x1_0000_0000 by { assert Power256(2) == 0x1_0000; }
  }

  /** The part of a number between two places. */
  lemma Middle(low: nat, p: nat, x: nat, s: nat, high: nat)
    requires low < p && x < s
    ensures ((low + p * (x + s * high)) / p) % s == x
  {
    var rest := x + s * high;
    Arith.DivisionIsUnique(low + p * rest, p, rest, low);
    Arith.DivisionIsUnique(rest, s, high, x);
  }

  lemma PartOfLittle(m: Text, j: nat, a: nat, size: nat, rest: nat)
    requires a + size + rest == 8 && forall n: nat :: m(n) < 0x100
    ensures (Little(m, j, 8) / Power256(a)) % Power256(size) == Little(m, j + a, size)
  {
    hide Little, Power256;
    LittleSplits(m, j, a, size + rest);
    LittleSplits(m, j + a, size, rest);
    LittleFits(m, j, a);
    LittleFits(m, j + a, size);
    Middle(Little(m, j, a), Power256(a), Little(m, j + a, size), Power256(size), Little(m, j + a + size, rest));
  }

  lemma UnitOfLittle(m: Text, j: nat, f: Form, i: nat)
    requires i < PerWord(f) && Little(m, j, 8) < WORD_SIZE && forall n: nat :: m(n) < 0x100
    ensures UnitOf(Little(m, j, 8), f, i) == Little(m, j + UnitSize(f) * i, UnitSize(f))
  {
    hide Little, Power256;
    var a := UnitSize(f) * i;
    PartOfLittle(m, j, a, UnitSize(f), 8 - a - UnitSize(f));
  }

  /** Whatever the words hold, the 8-bit text is the bytes of memory, and the units of the others
      are the little-endian values of two and of four bytes in a row. */
  lemma TextIsBytes(mem: Memory, addr: Word, m: Text, j: nat)
    requires Stores(mem, addr, m)
    ensures TextAt(mem, addr, Utf8Text)(j) == m(j)
    ensures TextAt(mem, addr, Utf16Text)(j) == m(2 * j) + 0x100 * m(2 * j + 1)
    ensures TextAt(mem, addr, Utf32Text)(j) ==
      m(4 * j) + 0x100 * m(4 * j + 1) + 0x1_0000 * m(4 * j + 2) + 0x100_0000 * m(4 * j + 3)
  {
    hide UnitOf, Little, UnitAt, Stores;
    UnitIsBytes(mem, addr, m, Utf8Text, j);
    UnitIsBytes(mem, addr, m, Utf16Text, j);
    UnitIsBytes(mem, addr, m, Utf32Text, j);
    LittleShort(m, j);
    LittleShort(m, 2 * j);
    LittleShort(m, 4 * j);
  }

  lemma UnitIsBytes(mem: Memory, addr: Word, m: Text, f: Form, j: nat)
    requires Stores(mem, addr, m)
    ensures UnitAt(mem, addr, f, j) == Little(m, UnitSize(f) * j, UnitSize(f))
  {
    hide UnitOf, Little, Add, Stores;
    var k, i := j / PerWord(f), j % PerWord(f);
    StoredWord(mem, addr, m, k);
    UnitOfLittle(m, 8 * k, f, i);
    assert 8 * k + UnitSize(f) * i == UnitSize(f) * j;
  }

  lemma StoredWord(mem: Memory, addr: Word, m: Text, k: nat)
    requires Stores(mem, addr, m)
    ensures mem(Add(addr, 8 * k)) == Little(m, 8 * k, 8) && forall n: nat :: m(n) < 0x100
  {
    hide Little, Add;
    LittleWord(m, 8 * k);
  }

  /** Texts with the same units read the same. */
  lemma {:induction false} SameUnitsSameText(b: Text, c: Text, f: Form, j: nat, left: nat)
    requires forall i: nat :: b(i) == c(i)
    ensures ReadText(b, f, j, left) == ReadText(c, f, j, left)
    decreases left
  {
    hide Utf8.Encode, Combine;
    SameCharacter(b, c, f, j);
    if left > 0 && CharLength(b, f, j) > 0 {
      SameUnitsSameText(b, c, f, j + CharLength(b, f, j), left - 1);
    }
  }

  lemma SameCharacter(b: Text, c: Text, f: Form, j: nat)
    requires forall i: nat :: b(i) == c(i)
    ensures CharLength(b, f, j) == CharLength(c, f, j) && Shown(b, f, j) == Shown(c, f, j)
  {
    hide Utf8.Encode, Combine;
    SameContinues(b, c, j + 1, 1);
    SameContinues(b, c, j + 1, 2);
    SameContinues(b, c, j + 1, 3);
    assert Slice(b, j, CharLength(b, f, j)) == Slice(c, j, CharLength(b, f, j));
  }

  lemma {:induction false} SameContinues(b: Text, c: Text, j: nat, n: nat)
    requires forall i: nat :: b(i) == c(i)
    ensures Continues(b, j, n) == Continues(c, j, n)
    decreases n
  {
    if n > 0 {
      SameContinues(b, c, j + 1, n - 1);
    }
  }

  /** What tryGetString shows is read from the bytes of memory, in the order of their addresses. */
  lemma BytesAreShown(mem: Memory, addr: Word, m: Text, left: nat)
    requires Stores(mem, addr, m)
    ensures ReadText(TextAt(mem, addr, Utf8Text), Utf8Text, 0, left) == ReadText(m, Utf8Text, 0, left)
  {
    hide ReadText, TextAt, Stores;
    forall j: nat ensures TextAt(mem, addr, Utf8Text)(j) == m(j) {
      TextIsBytes(mem, addr, m, j);
    }
    SameUnitsSameText(TextAt(mem, addr, Utf8Text), m, Utf8Text, 0, left);
  }

  /** Plain text, stored byte by byte with a NUL behind it, is shown as it stands. */
  lemma PlainTextIsShown(mem: Memory, addr: Word, m: Text, n: nat, left: nat)
    requires Stores(mem, addr, m) && n <= left
    requires (forall i: nat :: i < n ==> 0 < m(i) < 0x80) && m(n) == 0
    ensures ReadText(TextAt(mem, addr, Utf8Text), Utf8Text, 0, left) == Slice(m, 0, n)
  {
    hide ReadText, TextAt, Stores;
    BytesAreShown(mem, addr, m, left);
    PlainTextFrom(m, 0, n, left);
  }

  lemma {:induction false} PlainTextFrom(m: Text, j: nat, n: nat, left: nat)
    requires j <= n && n - j <= left
    requires (forall i: nat :: i < n ==> 0 < m(i) < 0x80) && m(n) == 0
    ensures ReadText(m, Utf8Text, j, left) == Slice(m, j, n - j)
    decreases n - j
  {
    if j < n {
      PlainTextFrom(m, j + 1, n, left - 1);
      assert CharLength(m, Utf8Text, j) == 1 && Slice(m, j, 1) + Slice(m, j + 1, n - j - 1) == Slice(m, j, n - j);
    }
  }

  // ---------------------------------------------------------------------------------------
  // Main results

  /** n whole characters stand at index j. */
  ghost predicate WholeCharacters(b: Text, f: Form, j: nat, n: nat)
    decreases n
  {
    n == 0 || (CharLength(b, f, j) > 0 && WholeCharacters(b, f, j + CharLength(b, f, j), n - 1))
  }

  /** Where n whole characters end. */
  ghost function EndOf(b: Text, f: Form, j: nat, n: nat): nat
    decreases n
  {
    if n == 0 then j else EndOf(b, f, j + CharLength(b, f, j), n - 1)
  }

  /** The leading bits that make a character of one to four bytes, of one or two 16-bit units, and
      the numbers that are characters of 32-bit text. */
  lemma CharactersByBits(b: Text, j: nat)
    ensures var c, n := b(j), CharLength(b, Utf8Text, j);
      && n <= 4
      && (n == 1 <==> c != 0 && c / 0x80 == 0)
      && (n == 2 <==> c / 0x20 == 0x6 && b(j + 1) / 0x40 == 2)
      && (n == 3 <==> c / 0x10 == 0xe && b(j + 1) / 0x40 == 2 && b(j + 2) / 0x40 == 2)
      && (n == 4 <==> c / 0x8 == 0x1e && b(j + 1) / 0x40 == 2 && b(j + 2) / 0x40 == 2 && b(j + 3) / 0x40 == 2)
    ensures var c, n := b(j), CharLength(b, Utf16Text, j);
      && n <= 2
      && (n == 1 <==> c != 0 && c / 0x800 != 0x1b)
      && (n == 2 <==> c / 0x400 == 0x36 && b(j + 1) / 0x400 == 0x37)
    ensures var c, n := b(j), CharLength(b, Utf32Text, j);
      n == if 0 < c < 0xd800 || 0xdfff < c <= 0x10_ffff then 1 else 0
  {
    assert Continues(b, j + 1, 1) == IsContinuation(b(j + 1)) by { assert Continues(b, j + 2, 0); }
    assert Continues(b, j + 2, 1) == IsContinuation(b(j + 2)) by { assert Continues(b, j + 3, 0); }
    assert Continues(b, j + 3, 1) == IsContinuation(b(j + 3)) by { assert Continues(b, j + 4, 0); }
    assert Continues(b, j + 1, 2) == (IsContinuation(b(j + 1)) && Continues(b, j + 2, 1));
    assert Continues(b, j + 2, 2) == (IsContinuation(b(j + 2)) && Continues(b, j + 3, 1));
    assert Continues(b, j + 1, 3) == (IsContinuation(b(j + 1)) && Continues(b, j + 2, 2));
  }

  /** The bytes of tryGetString are exactly those of the longest run of at most left correct
      sequences: either left of them, or up to a NUL or a malformed sequence. */
  lemma {:induction false} ShowsLongestPrefix(b: Text, j: nat, left: nat) returns (n: nat)
    ensures n <= left && WholeCharacters(b, Utf8Text, j, n) && EndOf(b, Utf8Text, j, n) >= j
    ensures n == left || CharLength(b, Utf8Text, EndOf(b, Utf8Text, j, n)) == 0
    ensures ReadText(b, Utf8Text, j, left) == Slice(b, j, EndOf(b, Utf8Text, j, n) - j)
    decreases left
  {
    var c := CharLength(b, Utf8Text, j);
    if left == 0 || c == 0 {
      n := 0;
    } else {
      var m := ShowsLongestPrefix(b, j + c, left - 1);
      n := m + 1;
      var end := EndOf(b, Utf8Text, j + c, m);
      assert Slice(b, j, c) + Slice(b, j + c, end - (j + c)) == Slice(b, j, end - j);
    }
  }

  /** RFC 2781, section 2.2: the number a surrogate pair stands for. */
  function Pair(c1: nat, c2: nat): int {
    0x1_0000 + (c1 - 0xd800) * 0x400 + (c2 - 0xdc00)
  }

  /** The source joins the halves of a pair as RFC 2781 does exactly when bit 6 of the high
      surrogate is clear. */
  lemma PairIsCombined(c1: nat, c2: nat)
    requires IsHigh(c1) && IsLow(c2)
    ensures Combine(c1, c2) == Pair(c1, c2) <==> (c1 / 0x40) % 2 == 0
    ensures 0x1_0000 <= Combine(c1, c2) <= 0x10_ffff
  {
    var h, l := c1 - 0xd800, c2 - 0xdc00;
    hide Pair, Combine;
    HighBits(h, l);
    assert c1 % 0x400 == h && c2 % 0x400 == l;
    PairMeans(h, l);
    CombineMeans(h, l);
    assert (c1 / 0x40) % 2 == (h / 0x40) % 2;
  }

  lemma HighBits(h: nat, l: nat)
    requires h < 0x400 && l < 0x400
    ensures (h * 0x400 + l) / 0x1_0000 == h / 0x40
  {
  }

  lemma PairMeans(h: nat, l: nat)
    requires h < 0x400 && l < 0x400
    ensures Pair(0xd800 + h, 0xdc00 + l) == 0x1_0000 + h * 0x400 + l
  {
  }

  lemma CombineMeans(h: nat, l: nat)
    requires h < 0x400 && l < 0x400
    ensures Combine(0xd800 + h, 0xdc00 + l) == h * 0x400 + l + if (h / 0x40) % 2 == 1 then 0 else 0x1_0000
  {
    HighBits(h, l);
    assert (0xd800 + h) % 0x400 == h && (0xdc00 + l) % 0x400 == l;
  }

  /** The code points of 16-bit or 32-bit text, with pairs read as RFC 2781 says or as the
      source does. */
  function Points(b: Text, f: Form, j: nat, left: nat, rfc: bool): seq<int>
    decreases left
  {
    var n := CharLength(b, f, j);
    if left == 0 || n == 0 then []
    else
      var x := if n != 2 then b(j) else if rfc then Pair(b(j), b(j + 1)) else Combine(b(j), b(j + 1));
      [x] + Points(b, f, j + n, left - 1, rfc)
  }

  /** Every high surrogate that is read has bit 6 clear. */
  predicate PairsClear(b: Text, j: nat, left: nat)
    decreases left
  {
    var n := CharLength(b, Utf16Text, j);
    left == 0 || n == 0 || ((n == 2 ==> (b(j) / 0x40) % 2 == 0) && PairsClear(b, j + n, left - 1))
  }

  /** tryGetString16 reads the text that RFC 2781 defines exactly when no high surrogate in it
      has bit 6 set; text without surrogates is always read right. */
  lemma {:induction false} Utf16IsRfc2781(b: Text, j: nat, left: nat)
    ensures Points(b, Utf16Text, j, left, false) == Points(b, Utf16Text, j, left, true) <==> PairsClear(b, j, left)
    decreases left
  {
    var n := CharLength(b, Utf16Text, j);
    if left > 0 && n > 0 {
      Utf16IsRfc2781(b, j + n, left - 1);
      if n == 2 {
        PairIsCombined(b(j), b(j + 1));
      }
      var x, y := Points(b, Utf16Text, j, left, false), Points(b, Utf16Text, j, left, true);
      assert x[1..] == Points(b, Utf16Text, j + n, left - 1, false);
      assert y[1..] == Points(b, Utf16Text, j + n, left - 1, true);
      assert x == [x[0]] + x[1..] && y == [y[0]] + y[1..];
    }
  }

  predicate Characters(cps: seq<int>) {
    forall i :: 0 <= i < |cps| ==> 0 < cps[i] <= 0x10_ffff
  }

  function EncodeText(cps: seq<int>): seq<int>
    requires Characters(cps)
  {
    if cps == [] then [] else Utf8.Encode(cps[0]) + EncodeText(cps[1..])
  }

  /** What is shown for wide text is the encoding of its code points. */
  lemma {:induction false} WideTextIsEncoded(b: Text, f: Form, j: nat, left: nat)
    requires !f.Utf8Text? && forall i: nat :: b(i) < 0x1_0000 || f.Utf32Text?
    ensures Characters(Points(b, f, j, left, false))
    ensures ReadText(b, f, j, left) == EncodeText(Points(b, f, j, left, false))
    ensures |Points(b, f, j, left, false)| <= left
    decreases left
  {
    hide CharLength, Combine, Utf8.Encode, Slice;
    var n := CharLength(b, f, j);
    if left > 0 && n > 0 {
      WideTextIsEncoded(b, f, j + n, left - 1);
      WideCharacter(b, f, j);
      var ps := Points(b, f, j, left, false);
      assert ps[1..] == Points(b, f, j + n, left - 1, false);
      assert ps[0] == if n == 2 then Combine(b(j), b(j + 1)) else b(j);
    }
  }

  lemma WideCharacter(b: Text, f: Form, j: nat)
    requires !f.Utf8Text? && CharLength(b, f, j) > 0 && (b(j) < 0x1_0000 || f.Utf32Text?)
    ensures 0 < (if CharLength(b, f, j) == 2 then Combine(b(j), b(j + 1)) else b(j)) <= 0x10_ffff
    ensures CharLength(b, f, j) <= 2
  {
  }

  /** The text stands in memory from index j on, with a NUL after it. */
  ghost predicate StandsAt(s: seq<int>, b: Text, j: nat) {
    (forall i :: 0 <= i < |s| ==> b(j + i) == s[i]) && b(j + |s|) == 0
  }

  /** Each encoded character is one whole character for tryGetString. */
  lemma EncodedIsWhole(cp: nat, b: Text, j: nat)
    requires 0 < cp <= 0x10_ffff && forall i :: 0 <= i < |Utf8.Encode(cp)| ==> b(j + i) == Utf8.Encode(cp)[i]
    ensures CharLength(b, Utf8Text, j) == |Utf8.Encode(cp)|
  {
    var e := Utf8.Encode(cp);
    assert b(j) == e[0] && (|e| > 1 ==> b(j + 1) == e[1]);
    assert (|e| > 2 ==> b(j + 2) == e[2]) && (|e| > 3 ==> b(j + 3) == e[3]);
    assert |e| > 1 ==> NeedChars(e[0]) == |e|;
    assert |e| == 2 ==> Continues(b, j + 1, 1);
    assert |e| == 3 ==> Continues(b, j + 2, 1) && Continues(b, j + 1, 2);
    assert |e| == 4 ==> Continues(b, j + 3, 1) && Continues(b, j + 2, 2) && Continues(b, j + 1, 3);
  }

  /** What tryGetString16 or tryGetString32 shows is read back by tryGetString as it stands. */
  lemma {:induction false} ShownTextRereads(cps: seq<int>, b: Text, j: nat, left: nat)
    requires Characters(cps) && StandsAt(EncodeText(cps), b, j) && |cps| <= left
    ensures ReadText(b, Utf8Text, j, left) == EncodeText(cps)
    decreases left
  {
    hide StandsAt, EncodeText, CharLength, Utf8.Encode, Slice;
    if cps == [] {
      NothingStands(b, j);
    } else {
      var e := Utf8.Encode(cps[0]);
      FirstStands(cps, b, j);
      EncodedIsWhole(cps[0], b, j);
      ShownTextRereads(cps[1..], b, j + |e|, left - 1);
    }
  }

  lemma NothingStands(b: Text, j: nat)
    requires StandsAt(EncodeText([]), b, j)
    ensures CharLength(b, Utf8Text, j) == 0 && EncodeText([]) == []
  {
  }

  lemma FirstStands(cps: seq<int>, b: Text, j: nat)
    requires cps != [] && Characters(cps) && StandsAt(EncodeText(cps), b, j)
    ensures var e := Utf8.Encode(cps[0]);
      && (forall i :: 0 <= i < |e| ==> b(j + i) == e[i])
      && Slice(b, j, |e|) == e
      && StandsAt(EncodeText(cps[1..]), b, j + |e|)
      && EncodeText(cps) == e + EncodeText(cps[1..])
  {
    hide StandsAt, Slice, Utf8.Encode;
    var e: seq<int>, rest := Utf8.Encode(cps[0]), EncodeText(cps[1..]);
    assert EncodeText(cps) == e + rest;
    StandsParts(e, rest, b, j);
  }

  lemma StandsParts(e: seq<int>, rest: seq<int>, b: Text, j: nat)
    requires StandsAt(e + rest, b, j)
    ensures forall i :: 0 <= i < |e| ==> b(j + i) == e[i]
    ensures Slice(b, j, |e|) == e
    ensures StandsAt(rest, b, j + |e|)
  {
    var s := e + rest;
    forall i | 0 <= i < |e| ensures b(j + i) == e[i] {
      assert s[i] == e[i];
    }
    forall i | 0 <= i < |rest| ensures b(j + |e| + i) == rest[i] {
      assert s[|e| + i] == rest[i];
      assert b(j + (|e| + i)) == s[|e| + i];
    }
  }

  /** The bytes that 16- or 32-bit text is shown as, stored anywhere with a NUL behind them, are
      shown again by the 8-bit form under the same limit. */
  lemma ShownTextIsShownAgain(mem: Memory, addr: Word, f: Form, max: int, copy: Memory, place: Word)
    requires !f.Utf8Text?
    requires StandsAt(ReadText(TextAt(mem, addr, f), f, 0, Limit(max)), TextAt(copy, place, Utf8Text), 0)
    ensures ReadText(TextAt(copy, place, Utf8Text), Utf8Text, 0, Limit(max))
      == ReadText(TextAt(mem, addr, f), f, 0, Limit(max))
  {
    hide ReadText, Points, EncodeText, StandsAt, UnitAt, Characters;
    var b := TextAt(mem, addr, f);
    forall i: nat ensures b(i) < 0x1_0000 || f.Utf32Text? {
      UnitsAreSmall(mem, addr, f, i);
    }
    WideTextIsEncoded(b, f, 0, Limit(max));
    ShownTextRereads(Points(b, f, 0, Limit(max), false), TextAt(copy, place, Utf8Text), 0, Limit(max));
  }

  lemma UnitsAreSmall(mem: Memory, addr: Word, f: Form, j: nat)
    requires !f.Utf8Text?
    ensures UnitAt(mem, addr, f, j) < 0x1_0000 || f.Utf32Text?
  {
    assert Power256(2) == 0x1_0000 by { assert Power256(1) == 256; }
  }
}
