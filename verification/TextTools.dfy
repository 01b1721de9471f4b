/** The string helpers: split, replaceAll and jsonEscape. */
module TextTools {
  import opened Machine

  // ---------------------------------------------------------------------------------------
  // Finding, splitting and joining

  /** The pattern stands in s at index i. */
  predicate StandsAt(s: string, d: string, i: nat) {
    i + |d| <= |s| && s[i..i + |d|] == d
  }

  /** std::string::find from an index on; None is npos. */
  function Find(s: string, d: string, start: nat): (p: Option<nat>)
    ensures match p
      case Some(i) => start <= i && StandsAt(s, d, i) && forall k :: start <= k < i ==> !StandsAt(s, d, k)
      case None => forall k :: start <= k ==> !StandsAt(s, d, k)
    decreases if start <= |s| then |s| - start + 1 else 0
  {
    if start > |s| then None
    else if StandsAt(s, d, start) then Some(start)
    else Find(s, d, start + 1)
  }

  /** The pieces of s between the leftmost occurrences of d that do not overlap. */
  function Split(s: string, d: string): (parts: seq<string>)
    requires d != ""
    ensures parts != []
    decreases |s|
  {
    match Find(s, d, 0)
    case None => [s]
    case Some(p) => [s[..p]] + Split(s[p + |d|..], d)
  }

  function Join(parts: seq<string>, d: string): string {
    if parts == [] then ""
    else if |parts| == 1 then parts[0]
    else parts[0] + d + Join(parts[1..], d)
  }

  /** split with a string delimiter. */
  method SplitString(s: string, delim: string) returns (res: seq<string>)
    requires delim != ""
    ensures res == Split(s, delim)
  {
    var scopy := s;
    res := [];
    var p := Find(scopy, delim, 0);
    while p.Some?
      invariant p == Find(scopy, delim, 0)
      invariant Split(s, delim) == res + Split(scopy, delim)
      decreases |scopy|
    {
      var str := scopy[..p.value];
      ghost var rest := Split(scopy[p.value + |delim|..], delim);
      assert res + ([str] + rest) == res + [str] + rest;
      res := res + [str];
      scopy := scopy[p.value + |delim|..];
      p := Find(scopy, delim, 0);
    }
    res := res + [scopy];
  }

  /** s is finished up to done, and replacing in the rest gives the goal. */
  ghost predicate Finished(goal: string, s: string, done: nat, before: string, after: string)
    requires before != ""
  {
    done <= |s| && s[..done] + Join(Split(s[done..], before), after) == goal
  }

  lemma ReplaceStarts(text: string, before: string, after: string)
    requires before != ""
    ensures Finished(Join(Split(text, before), after), text, 0, before, after)
  {
  }

  lemma ReplaceOne(goal: string, s: string, done: nat, before: string, after: string, p: nat)
    requires before != "" && Finished(goal, s, done, before, after) && Find(s, before, done) == Some(p)
    ensures p + |before| <= |s| && done <= p
    ensures Finished(goal, s[..p] + after + s[p + |before|..], p + |after|, before, after)
  {
    hide Split, Join, Find;
    FindMeans(s, before, done);
    FindInRest(s, before, done);
    var tail, rest := s[done..], s[p + |before|..];
    SplitFirst(tail, before, p - done, after);
    assert tail[p - done + |before|..] == rest && tail[..p - done] == s[done..p];
    var more := Join(Split(rest, before), after);
    assert s[..done] + (s[done..p] + after + more) == s[..p] + after + more;
    var t := s[..p] + after + rest;
    assert t[..p + |after|] == s[..p] + after && t[p + |after|..] == rest;
  }

  lemma FindMeans(s: string, d: string, start: nat)
    ensures Find(s, d, start).Some? ==> start <= Find(s, d, start).value && Find(s, d, start).value + |d| <= |s|
  {
  }

  lemma ReplaceEnds(goal: string, s: string, done: nat, before: string, after: string)
    requires before != "" && Finished(goal, s, done, before, after) && Find(s, before, done) == None
    ensures s == goal
  {
    FindInRest(s, before, done);
    assert s[..done] + s[done..] == s;
  }

  /** replaceAll edits s in place, going on behind what it has inserted. */
  method ReplaceAll(text: string, before: string, after: string) returns (s: string)
    requires before != ""
    ensures s == Join(Split(text, before), after)
  {
    hide Split, Join, Find, Finished, StandsAt;
    ghost var goal := Join(Split(text, before), after);
    ReplaceStarts(text, before, after);
    s := text;
    var done: nat := 0;
    var pos := Find(s, before, 0);
    while pos.Some?
      invariant pos == Find(s, before, done) && done <= |s| && Finished(goal, s, done, before, after)
      decreases |s| - done
    {
      var p := pos.value;
      ReplaceOne(goal, s, done, before, after, p);
      s := s[..p] + after + s[p + |before|..];
      done := p + |after|;
      pos := Find(s, before, done);
    }
    ReplaceEnds(goal, s, done, before, after);
  }

  lemma SliceOfRest(s: string, start: nat, k: nat, n: nat)
    requires start + k + n <= |s|
    ensures s[start..][k..k + n] == s[start + k..start + k + n]
  {
  }

  /** Searching from an index on is searching the rest. */
  lemma FindInRest(s: string, d: string, start: nat)
    requires start <= |s|
    ensures match Find(s, d, start)
      case Some(p) => Find(s[start..], d, 0) == Some(p - start)
      case None => Find(s[start..], d, 0) == None
  {
    forall k: nat
      ensures StandsAt(s[start..], d, k) <==> StandsAt(s, d, start + k)
    {
      if k + |d| <= |s| - start {
        SliceOfRest(s, start, k, |d|);
      }
    }
    var p, q := Find(s, d, start), Find(s[start..], d, 0);
    if p.Some? {
      assert StandsAt(s[start..], d, p.value - start);
    }
    if q.Some? {
      assert StandsAt(s, d, start + q.value);
    }
  }

  lemma SplitFirst(s: string, d: string, p: nat, glue: string)
    requires d != "" && Find(s, d, 0) == Some(p)
    ensures Join(Split(s, d), glue) == s[..p] + glue + Join(Split(s[p + |d|..], d), glue)
  {
  }

  /** Splitting and joining with the same delimiter changes nothing. */
  lemma {:induction false} JoinOfSplit(s: string, d: string)
    requires d != ""
    ensures Join(Split(s, d), d) == s
    decreases |s|
  {
    var p := Find(s, d, 0);
    if p.Some? {
      SplitFirst(s, d, p.value, d);
      JoinOfSplit(s[p.value + |d|..], d);
      assert s[p.value..p.value + |d|] == d;
      assert s == s[..p.value] + s[p.value..p.value + |d|] + s[p.value + |d|..];
    }
  }

  /** No piece holds the delimiter. */
  lemma {:induction false} PiecesAreClean(s: string, d: string)
    requires d != ""
    ensures forall i, k :: 0 <= i < |Split(s, d)| && 0 <= k ==> !StandsAt(Split(s, d)[i], d, k)
    decreases |s|
  {
    var p := Find(s, d, 0);
    if p.Some? {
      var rest := s[p.value + |d|..];
      PiecesAreClean(rest, d);
      forall k: nat ensures !StandsAt(s[..p.value], d, k) {
        if StandsAt(s[..p.value], d, k) {
          assert s[..p.value][k..k + |d|] == s[k..k + |d|];
          assert StandsAt(s, d, k);
        }
      }
      forall i: nat, k: nat | i < |Split(s, d)| ensures !StandsAt(Split(s, d)[i], d, k) {
        if i > 0 {
          assert Split(s, d)[i] == Split(rest, d)[i - 1];
        }
      }
    }
  }

  // ---------------------------------------------------------------------------------------
  // One-character patterns

  /** Every occurrence of c becomes t. */
  function Substitute(s: string, c: char, t: string): string {
    if s == "" then "" else (if s[0] == c then t else [s[0]]) + Substitute(s[1..], c, t)
  }

  lemma {:induction false} SplitAtChar(s: string, c: char, t: string)
    ensures Join(Split(s, [c]), t) == Substitute(s, c, t)
    decreases |s|
  {
    hide Substitute;
    var p := Find(s, [c], 0);
    if p.Some? {
      SplitFirst(s, [c], p.value, t);
      FirstSubstitute(s, c, t, p.value);
      SplitAtChar(s[p.value + 1..], c, t);
    } else {
      NoCharBefore(s, c, |s|);
      assert s[..|s|] == s;
      SubstituteNothing(s, c, t);
    }
  }

  lemma FirstSubstitute(s: string, c: char, t: string, p: nat)
    requires Find(s, [c], 0) == Some(p)
    ensures Substitute(s, c, t) == s[..p] + t + Substitute(s[p + 1..], c, t)
  {
    hide Find;
    FindChar(s, c, p);
    NoCharBefore(s, c, p);
    var a, b := s[..p], s[p..];
    assert s == a + b && b[0] == c && b[1..] == s[p + 1..];
    SubstituteConcat(a, b, c, t);
    SubstituteNothing(a, c, t);
  }

  lemma FindChar(s: string, c: char, p: nat)
    requires Find(s, [c], 0) == Some(p)
    ensures p < |s| && s[p] == c && forall k :: 0 <= k < p ==> !StandsAt(s, [c], k)
  {
  }

  lemma NoCharBefore(s: string, c: char, n: nat)
    requires n <= |s| && forall k :: 0 <= k < n ==> !StandsAt(s, [c], k)
    ensures forall k :: 0 <= k < n ==> s[..n][k] != c
  {
    forall k | 0 <= k < n ensures s[k] != c {
      if s[k] == c {
        assert s[k..k + 1] == [c];
        assert StandsAt(s, [c], k);
      }
    }
  }

  lemma {:induction false} SubstituteNothing(s: string, c: char, t: string)
    requires forall k :: 0 <= k < |s| ==> s[k] != c
    ensures Substitute(s, c, t) == s
  {
    if s != "" {
      SubstituteNothing(s[1..], c, t);
      assert [s[0]] + s[1..] == s;
    }
  }

  lemma {:induction false} SubstituteConcat(a: string, b: string, c: char, t: string)
    ensures Substitute(a + b, c, t) == Substitute(a, c, t) + Substitute(b, c, t)
  {
    if a == "" {
      assert a + b == b;
    } else {
      assert (a + b)[1..] == a[1..] + b;
      SubstituteConcat(a[1..], b, c, t);
    }
  }

  // ---------------------------------------------------------------------------------------
  // JSON strings

  const BACKSPACE: char := '\U{0008}'
  const FORM_FEED: char := '\U{000C}'

  /** The seven passes of jsonEscape, one after the other. */
  function Passes(s: string): string {
    var s1 := Substitute(s, '\\', "\\\\");
    var s2 := Substitute(s1, '\n', "\\n");
    var s3 := Substitute(s2, '"', "\\\"");
    var s4 := Substitute(s3, '\t', "\\t");
    var s5 := Substitute(s4, '\r', "\\r");
    var s6 := Substitute(s5, FORM_FEED, "\\f");
    Substitute(s6, BACKSPACE, "\\b")
  }

  /** What stands behind the backslash for a character that is escaped. */
  function Letter(c: char): Option<char> {
    if c == '\\' || c == '"' then Some(c)
    else if c == '\n' then Some('n')
    else if c == '\t' then Some('t')
    else if c == '\r' then Some('r')
    else if c == FORM_FEED then Some('f')
    else if c == BACKSPACE then Some('b')
    else None
  }

  /** A single pass over the characters. */
  function Escape(s: string): string {
    if s == "" then ""
    else (if Letter(s[0]).Some? then ['\\', Letter(s[0]).value] else [s[0]]) + Escape(s[1..])
  }

  /** The escapes character by character; all others stand for themselves. */
  lemma EscapeOfEach(c: char)
    ensures Escape("\n") == "\\n" && Escape("\t") == "\\t" && Escape("\r") == "\\r"
    ensures Escape("\\") == "\\\\" && Escape("\"") == "\\\""
    ensures Escape("\U{0008}") == "\\b" && Escape("\U{000C}") == "\\f"
    ensures c !in "\n\t\r\\\"\U{0008}\U{000C}" ==> Escape([c]) == [c]
  {
  }

  lemma PassesConcat(a: string, b: string)
    ensures Passes(a + b) == Passes(a) + Passes(b)
  {
    hide Substitute;
    SubstituteConcat(a, b, '\\', "\\\\");
    var a1, b1 := Substitute(a, '\\', "\\\\"), Substitute(b, '\\', "\\\\");
    SubstituteConcat(a1, b1, '\n', "\\n");
    var a2, b2 := Substitute(a1, '\n', "\\n"), Substitute(b1, '\n', "\\n");
    SubstituteConcat(a2, b2, '"', "\\\"");
    var a3, b3 := Substitute(a2, '"', "\\\""), Substitute(b2, '"', "\\\"");
    SubstituteConcat(a3, b3, '\t', "\\t");
    var a4, b4 := Substitute(a3, '\t', "\\t"), Substitute(b3, '\t', "\\t");
    SubstituteConcat(a4, b4, '\r', "\\r");
    var a5, b5 := Substitute(a4, '\r', "\\r"), Substitute(b4, '\r', "\\r");
    SubstituteConcat(a5, b5, FORM_FEED, "\\f");
    var a6, b6 := Substitute(a5, FORM_FEED, "\\f"), Substitute(b5, FORM_FEED, "\\f");
    SubstituteConcat(a6, b6, BACKSPACE, "\\b");
  }

  lemma SubstituteOne(x: char, c: char, t: string)
    ensures Substitute([x], c, t) == if x == c then t else [x]
  {
  }

  /** A pass leaves an escape alone unless its letter is the one escaped. */
  lemma SubstituteEscape(x: char, c: char, t: string)
    requires c != '\\' && x != c
    ensures Substitute(['\\', x], c, t) == ['\\', x]
  {
    assert forall k :: 0 <= k < 2 ==> ['\\', x][k] != c;
    SubstituteNothing(['\\', x], c, t);
  }

  lemma PassesOne(x: char)
    ensures Passes([x]) == if Letter(x).Some? then ['\\', Letter(x).value] else [x]
  {
    hide Substitute;
    SubstituteOne(x, '\\', "\\\\");
    SubstituteOne(x, '\n', "\\n");
    SubstituteOne(x, '"', "\\\"");
    SubstituteOne(x, '\t', "\\t");
    SubstituteOne(x, '\r', "\\r");
    SubstituteOne(x, FORM_FEED, "\\f");
    SubstituteOne(x, BACKSPACE, "\\b");
    if Letter(x).Some? {
      var e := Letter(x).value;
      if x == '\\' { SubstituteEscape(e, '\n', "\\n"); }
      if x == '\\' || x == '\n' { SubstituteEscape(e, '"', "\\\""); }
      SubstituteEscape(e, '\t', "\\t");
      SubstituteEscape(e, '\r', "\\r");
      SubstituteEscape(e, FORM_FEED, "\\f");
      SubstituteEscape(e, BACKSPACE, "\\b");
    }
  }

  /** The seven passes are one pass over the characters. */
  lemma {:induction false} PassesAreOne(s: string)
    ensures Passes(s) == Escape(s)
  {
    if s == "" {
    } else {
      hide Passes;
      assert s == [s[0]] + s[1..];
      PassesConcat([s[0]], s[1..]);
      PassesOne(s[0]);
      PassesAreOne(s[1..]);
    }
  }

  /** One pass. */
  method ReplaceChar(s: string, c: char, t: string) returns (res: string)
    ensures res == Substitute(s, c, t)
  {
    res := ReplaceAll(s, [c], t);
    SplitAtChar(s, c, t);
  }

  /** jsonEscape. */
  method JsonEscape(s: string) returns (res: string)
    ensures res == Escape(s)
  {
    hide Substitute, Escape;
    res := ReplaceChar(s, '\\', "\\\\");
    res := ReplaceChar(res, '\n', "\\n");
    res := ReplaceChar(res, '"', "\\\"");
    res := ReplaceChar(res, '\t', "\\t");
    res := ReplaceChar(res, '\r', "\\r");
    res := ReplaceChar(res, FORM_FEED, "\\f");
    res := ReplaceChar(res, BACKSPACE, "\\b");
    PassesAreOne(s);
  }

  /** The character an escape of section 7 of RFC 8259 stands for; \u is not among those read here. */
  function Meaning(e: char): Option<char> {
    if e == '"' || e == '\\' || e == '/' then Some(e)
    else if e == 'b' then Some(BACKSPACE)
    else if e == 'f' then Some(FORM_FEED)
    else if e == 'n' then Some('\n')
    else if e == 'r' then Some('\r')
    else if e == 't' then Some('\t')
    else None
  }

  /** Section 7 of RFC 8259: characters below U+0020 must be escaped. */
  predicate IsControl(c: char) {
    c < ' '
  }

  /** Section 7 of RFC 8259: the text of a JSON string without its quotation marks, read back.
      A strict reader refuses control characters that stand for themselves. */
  function Unescape(s: string, strict: bool): Option<string>
    decreases |s|
  {
    if s == "" then Some("")
    else if s[0] == '"' || (strict && IsControl(s[0])) then None
    else if s[0] != '\\' then
      match Unescape(s[1..], strict)
      case None => None
      case Some(rest) => Some([s[0]] + rest)
    else if |s| == 1 || Meaning(s[1]).None? then None
    else
      match Unescape(s[2..], strict)
      case None => None
      case Some(rest) => Some([Meaning(s[1]).value] + rest)
  }

  /** Every control character of s is one that jsonEscape knows. */
  predicate KnownControls(s: string) {
    forall i :: 0 <= i < |s| && IsControl(s[i]) ==> Letter(s[i]).Some?
  }

  /** Reading a JSON string undoes jsonEscape: always for a lenient reader, and for a strict
      one exactly when the text holds no control character without an escape of its own. */
  lemma {:induction false} UnescapeUndoesEscape(s: string, strict: bool)
    ensures Unescape(Escape(s), strict) == if strict && !KnownControls(s) then None else Some(s)
  {
    if s != "" {
      var c, rest := s[0], s[1..];
      UnescapeUndoesEscape(rest, strict);
      assert KnownControls(s) <==> (IsControl(c) ==> Letter(c).Some?) && KnownControls(rest) by {
        KnownControlsSplit(s);
      }
      assert [c] + rest == s;
      var t := Escape(s);
      if Letter(c).Some? {
        assert t[2..] == Escape(rest) && t[0] == '\\' && Meaning(t[1]) == Some(c);
      } else {
        assert t[1..] == Escape(rest) && t[0] == c;
      }
    }
  }

  /** A strict reader gets the text back exactly when its control characters are backspace, tab,
      line feed, form feed and carriage return. */
  lemma StrictlyReadExactly(s: string)
    ensures Unescape(Escape(s), true) == Some(s) <==>
      forall i :: 0 <= i < |s| && s[i] as int < 0x20 ==> s[i] as int in {0x08, 0x09, 0x0a, 0x0c, 0x0d}
  {
    hide Unescape, Escape;
    UnescapeUndoesEscape(s, true);
    forall i | 0 <= i < |s|
      ensures (IsControl(s[i]) ==> Letter(s[i]).Some?)
        <==> (s[i] as int < 0x20 ==> s[i] as int in {0x08, 0x09, 0x0a, 0x0c, 0x0d})
    {
      if s[i] as int < 0x20 { ControlLetters(s[i]); }
    }
  }

  lemma ControlLetters(c: char)
    requires c as int < 0x20
    ensures Letter(c).Some? <==> c as int in {0x08, 0x09, 0x0a, 0x0c, 0x0d}
  {
  }

  lemma KnownControlsSplit(s: string)
    requires s != ""
    ensures KnownControls(s) <==> (IsControl(s[0]) ==> Letter(s[0]).Some?) && KnownControls(s[1..])
  {
  }
}
