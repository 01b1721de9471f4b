/** The indexes over the rows of the line number tables: the first row at each address, the
    first main-source row of each line, and the ordered lookups in them. */
module LineIndex {
  import opened Machine
  import LineMachine
  import LineCodec

  /** A CodeLocation that was found. */
  datatype Location = Location(pc: Word, file: string, line: Word, column: Word, prologueEnd: bool, epilogueBegin: bool)

  type Index = map<Word, Location>

  // ---------------------------------------------------------------------------------------
  // std::map over words

  ghost predicate IsLeastAtLeast(keys: set<Word>, pc: Word, k: Word) {
    k in keys && k >= pc && forall j :: j in keys && j >= pc ==> k <= j
  }

  ghost predicate IsGreatestBelow(keys: set<Word>, pc: Word, k: Word) {
    k in keys && k < pc && forall j :: j in keys && j < pc ==> j <= k
  }

  /** lower_bound: the least key that is at least pc; None is end(). */
  function LowerBound(keys: set<Word>, pc: Word): (r: Option<Word>)
    ensures match r
      case Some(k) => IsLeastAtLeast(keys, pc, k)
      case None => forall j :: j in keys ==> j < pc
  {
    var above := set k | k in keys && k >= pc;
    if above == {} then assert forall j :: j in keys && j >= pc ==> j in above; None
    else
      LeastExists(above);
      var k :| IsLeast(above, k);
      assert forall j :: j in keys && j >= pc ==> j in above;
      Some(k)
  }

  /** The key before pc in iteration order. */
  function Before(keys: set<Word>, pc: Word): (r: Option<Word>)
    ensures match r
      case Some(k) => IsGreatestBelow(keys, pc, k)
      case None => forall j :: j in keys ==> j >= pc
  {
    var below := set k | k in keys && k < pc;
    if below == {} then assert forall j :: j in keys && j < pc ==> j in below; None
    else
      GreatestExists(below);
      var k :| k in below && forall j :: j in below ==> j <= k;
      assert forall j :: j in keys && j < pc ==> j in below;
      Some(k)
  }

  predicate IsLeast(keys: set<Word>, k: Word) {
    k in keys && forall j :: j in keys ==> k <= j
  }

  lemma LeastExists(keys: set<Word>)
    requires keys != {}
    ensures exists k :: IsLeast(keys, k)
  {
    var m := Least(keys);
  }

  lemma {:induction false} Least(keys: set<Word>) returns (m: Word)
    requires keys != {}
    ensures IsLeast(keys, m)
  {
    m :| m in keys;
    var rest := keys - {m};
    if rest != {} {
      var n := Least(rest);
      assert forall j :: j in keys ==> j == m || j in rest;
      m := if n < m then n else m;
    } else {
      assert keys == {m};
    }
  }

  lemma {:induction false} Greatest(keys: set<Word>) returns (m: Word)
    requires keys != {}
    ensures m in keys && forall j :: j in keys ==> j <= m
  {
    m :| m in keys;
    var rest := keys - {m};
    if rest != {} {
      var n := Greatest(rest);
      assert forall j :: j in keys ==> j == m || j in rest;
      m := if n > m then n else m;
    } else {
      assert keys == {m};
    }
  }

  lemma GreatestExists(keys: set<Word>)
    requires keys != {}
    ensures exists k :: k in keys && forall j :: j in keys ==> j <= k
  {
    var m := Greatest(keys);
  }

  // ---------------------------------------------------------------------------------------
  // What the rows say, by scanning them in the order they were emitted

  /** The first row emitted at an address. */
  function FirstAt(rows: seq<Location>, pc: Word): Option<Location> {
    if rows == [] then None
    else if rows[0].pc == pc then Some(rows[0])
    else FirstAt(rows[1..], pc)
  }

  /** Among the rows at the greatest address that is at most pc, the one emitted first. */
  function ScanAtMost(rows: seq<Location>, pc: Word): Option<Location> {
    if rows == [] then None
    else
      match ScanAtMost(rows[1..], pc)
      case None => if rows[0].pc <= pc then Some(rows[0]) else None
      case Some(r) => if r.pc <= rows[0].pc <= pc then Some(rows[0]) else Some(r)
  }

  /** The least address above pc, or 0. */
  function ScanAbove(rows: seq<Location>, pc: Word): Word {
    if rows == [] then 0
    else
      var r := ScanAbove(rows[1..], pc);
      if rows[0].pc > pc && (r == 0 || rows[0].pc < r) then rows[0].pc else r
  }

  predicate SomeAtLeast(rows: seq<Location>, pc: Word) {
    rows != [] && (rows[0].pc >= pc || SomeAtLeast(rows[1..], pc))
  }

  /** The row that the address index gives for pc; outside the first to last address, none. */
  function ByPC(rows: seq<Location>, pc: Word): Option<Location> {
    if SomeAtLeast(rows, pc) then ScanAtMost(rows, pc) else None
  }

  predicate OnLine(r: Option<Location>, source: string, line: Word) {
    r.Some? && r.value.file == source && r.value.line == line
  }

  /** The lowest-address first row that comes from the main source and has the line. */
  ghost predicate IsLineRow(rows: seq<Location>, source: string, line: Word, r: Location) {
    && FirstAt(rows, r.pc) == Some(r) && r.file == source && r.line == line
    && forall pc: Word :: OnLine(FirstAt(rows, pc), source, line) ==> r.pc <= pc
  }

  /** Some first row comes from the main source and has the line. */
  ghost predicate HasLineRow(rows: seq<Location>, source: string, line: Word) {
    exists pc: Word :: OnLine(FirstAt(rows, pc), source, line)
  }

  /** The location that a row of the state machine describes; name gives its file's name. */
  function LocationOf(r: LineMachine.Registers, name: Word -> string): Location {
    Location(r.address, name(r.file), r.line, r.column, r.prologueEnd, r.epilogueBegin)
  }

  function Locations(rows: seq<LineMachine.Registers>, name: Word -> string): seq<Location> {
    if rows == [] then [] else [LocationOf(rows[0], name)] + Locations(rows[1..], name)
  }

  /** Each row of the state machine becomes one location, in order, with the row's own address,
      file, line, column and flags. */
  lemma {:induction false} RowsAreLocated(rows: seq<LineMachine.Registers>, name: Word -> string, k: nat)
    requires k < |rows|
    ensures |Locations(rows, name)| == |rows|
    ensures var r, l := rows[k], Locations(rows, name)[k];
      && l.pc == r.address && l.file == name(r.file) && l.line == r.line && l.column == r.column
      && l.prologueEnd == r.prologueEnd && l.epilogueBegin == r.epilogueBegin
  {
    if k > 0 {
      RowsAreLocated(rows[1..], name, k - 1);
    } else if |rows| > 1 {
      RowsAreLocated(rows[1..], name, 0);
    } else {
      assert rows[1..] == [];
    }
  }

  lemma LocationsAppend(a: seq<LineMachine.Registers>, b: seq<LineMachine.Registers>, name: Word -> string)
    requires |a| <= 1
    ensures Locations(a + b, name) == Locations(a, name) + Locations(b, name)
  {
    if a == [] {
      assert a + b == b;
    } else {
      assert (a + b)[1..] == b && a[1..] == [];
    }
  }

  lemma AppendedLocations(rows: seq<Location>, row: Option<LineMachine.Registers>, rest: seq<LineMachine.Registers>,
                          name: Word -> string)
    ensures rows + Locations(LineMachine.Appended(row) + rest, name) ==
      (if row.Some? then rows + [LocationOf(row.value, name)] else rows) + Locations(rest, name)
  {
    LocationsAppend(LineMachine.Appended(row), rest, name);
    if row.Some? {
      assert Locations([row.value], name) == [LocationOf(row.value, name)];
    }
  }

  lemma NoLocations(rows: seq<Location>, name: Word -> string)
    ensures rows + Locations([], name) == rows
  {
  }

  // ---------------------------------------------------------------------------------------
  // The object

  class Info {
    const cuSrcName: string
    var locationByPc: Index
    var locationByLine: Index
    /** Every row added so far, in order. */
    ghost var rows: seq<Location>

    /** locationByPc keeps the first row of each address. */
    ghost predicate Indexed()
      reads this
    {
      IndexOf(locationByPc, rows)
    }

    /** locationByLine holds the lowest-address main-source row of each line. */
    ghost predicate Parsed()
      reads this
    {
      Indexed() && LineIndexOf(locationByLine, rows, cuSrcName)
    }

    constructor (cuSrcName: string)
      ensures this.cuSrcName == cuSrcName && rows == [] && locationByLine == map[] && Indexed()
    {
      this.cuSrcName := cuSrcName;
      locationByPc := map[];
      locationByLine := map[];
      rows := [];
    }

    /** addLineStateMachine: std::map::insert keeps what is already there. */
    method AddLineStateMachine(row: Location)
      requires Indexed()
      modifies this`locationByPc, this`rows
      ensures Indexed() && rows == old(rows) + [row]
    {
      forall pc: Word
        ensures FirstAt(rows + [row], pc) ==
          if FirstAt(rows, pc).Some? then FirstAt(rows, pc) else if row.pc == pc then Some(row) else None
      {
        FirstAtAppend(rows, row, pc);
      }
      if row.pc !in locationByPc {
        locationByPc := locationByPc[row.pc := row];
      }
      rows := rows + [row];
    }

    /** The loop of parseLineSection over the bytes of one line number program, which decodes,
        executes and indexes; an exception ends it and leaves the rows added before. */
    method ParseLineProgram(h: LineMachine.Header, lengths: seq<Byte>, data: seq<Byte>, start: nat, last: nat,
                            name: Word -> string)
      returns (error: Option<LineCodec.OpError>)
      requires Indexed() && h.Valid() && LineCodec.HasLengths(h, lengths)
      modifies this`locationByPc, this`rows
      ensures Indexed()
      ensures var (ops, e) := LineCodec.Program(h, lengths, data, start, last);
        error == e && rows == old(rows) + Locations(LineMachine.Run(h, LineMachine.Initial(h), ops).1, name)
    {
      hide LineMachine.Step, LineMachine.Appended, LineMachine.Encodable, LineCodec.ParseOp, Locations, LocationOf,
           IndexOf, LineMachine.Initial;
      var state := new LineMachine.LineStateMachine(h);
      var pos := start;
      ghost var goal := LineCodec.Program(h, lengths, data, start, last);
      ghost var all := LineMachine.Run(h, LineMachine.Initial(h), goal.0).1;
      while pos < last && pos < |data|
        invariant fresh(state) && state.header == h && Indexed()
        invariant LineCodec.Program(h, lengths, data, pos, last).1 == goal.1
        invariant var ops := LineCodec.Program(h, lengths, data, pos, last).0;
          rows + Locations(LineMachine.Run(h, state.State(), ops).1, name) == old(rows) + Locations(all, name)
        decreases |data| - pos
      {
        ghost var before, ops := state.State(), LineCodec.Program(h, lengths, data, pos, last).0;
        var r := LineCodec.ParseOp(h, lengths, data, pos);
        LineCodec.ParseOpAdvances(h, lengths, data, pos);
        if r.value.Err? {
          NoLocations(rows, name);
          return Some(r.value.error);
        }
        ghost var rest := LineCodec.Program(h, lengths, data, r.pos, last).0;
        assert ops == [r.value.value] + rest && ops[1..] == rest;
        var row := state.Execute(r.value.value);
        assert LineMachine.Run(h, before, ops).1
          == LineMachine.Appended(row) + LineMachine.Run(h, state.State(), rest).1;
        AppendedLocations(rows, row, LineMachine.Run(h, state.State(), rest).1, name);
        if row.Some? {
          AddLineStateMachine(LocationOf(row.value, name));
        }
        pos := r.pos;
      }
      NoLocations(rows, name);
      error := None;
    }

    /** The loop of parse over locationByPc, in ascending order of address. */
    method BuildLineIndex()
      requires Indexed() && locationByLine == map[]
      modifies this`locationByLine
      ensures Parsed()
    {
      hide LinesOf, IndexOf, LineIndexOf;
      IndexKeys(locationByPc, rows);
      var left := locationByPc.Keys;
      ghost var done: set<Word> := {};
      NoLines(locationByPc, cuSrcName);
      while left != {}
        invariant done + left == locationByPc.Keys
        invariant forall k, j :: k in left && j in done ==> j < k
        invariant LinesOf(locationByPc, done, cuSrcName, locationByLine)
        decreases left
      {
        LeastExists(left);
        var k :| IsLeast(left, k);
        var it := locationByPc[k];
        LinesOfNext(locationByPc, done, cuSrcName, locationByLine, k);
        if it.file == cuSrcName {
          if it.line !in locationByLine {
            locationByLine := locationByLine[it.line := it];
          }
        }
        done, left := done + {k}, left - {k};
      }
      assert done == locationByPc.Keys;
      LinesOfAll(locationByPc, rows, cuSrcName, locationByLine);
    }

    /** locationByPC. */
    method LocationByPC(pc: Word, matchSrc: bool) returns (r: Option<Location>)
      requires Indexed()
      ensures r ==
        var found := ByPC(rows, pc);
        if found.Some? && matchSrc && |cuSrcName| > 0 && found.value.file != cuSrcName then None else found
    {
      ScanAtMostMeaning(rows, pc);
      if SomeAtLeast(rows, pc) {
        ghost var a := RowAtLeast(rows, pc);
        assert a in locationByPc;
      } else {
        forall a: Word | a >= pc ensures a !in locationByPc {
          NoRowAtLeast(rows, pc, a);
        }
      }
      if pc in locationByPc {
        var it := locationByPc[pc];
        if matchSrc && |cuSrcName| > 0 && it.file != cuSrcName { return None; }
        return Some(it);
      }
      var bound := LowerBound(locationByPc.Keys, pc);
      if bound.Some? {
        var before := Before(locationByPc.Keys, bound.value);
        if before.Some? {
          var it := locationByPc[before.value];
          assert FirstAt(rows, before.value) == Some(it);
          FirstAtHasAddress(rows, before.value);
          ghost var r0 := ScanAtMost(rows, pc).value;
          assert r0.pc in locationByPc && r0.pc <= before.value;
          if matchSrc && |cuSrcName| > 0 && it.file != cuSrcName { return None; }
          return Some(it);
        }
      }
      return None;
    }

    /** exactLocationByPC. */
    method ExactLocationByPC(pc: Word) returns (r: Option<Location>)
      requires Indexed()
      ensures r == ExactByPC(rows, cuSrcName, pc)
      ensures r.Some? <==>
        FirstAt(rows, pc).Some? && (cuSrcName == "" || FirstAt(rows, pc).value.file == cuSrcName)
      ensures r.Some? ==> r == FirstAt(rows, pc) && r.value.pc == pc
    {
      FirstAtHasAddress(rows, pc);
      if pc in locationByPc {
        if |cuSrcName| > 0 && locationByPc[pc].file != cuSrcName { return None; }
        return Some(locationByPc[pc]);
      }
      return None;
    }

    /** exactLocationByLine. */
    method ExactLocationByLine(line: Word) returns (r: Option<Location>)
      requires Parsed()
      ensures r.Some? <==> HasLineRow(rows, cuSrcName, line)
      ensures r.Some? ==> IsLineRow(rows, cuSrcName, line, r.value)
      ensures r.Some? <==> exists k :: IsKeptRow(rows, cuSrcName, line, k)
      ensures r.Some? ==> forall k :: IsKeptRow(rows, cuSrcName, line, k) ==> r.value.pc <= rows[k].pc
    {
      KeptRows(rows, cuSrcName, line);
      if line in locationByLine { return Some(locationByLine[line]); }
      return None;
    }

    /** nextLinePC: the value of upper_bound(pc), or 0. */
    method NextLinePC(pc: Word) returns (next: Word)
      requires Indexed()
      ensures next == ScanAbove(rows, pc)
    {
      ScanAboveMeaning(rows, pc);
      var above := if pc == ALL_ONES then None else LowerBound(locationByPc.Keys, pc + 1);
      if above.Some? {
        FirstAtHasAddress(rows, above.value);
        return locationByPc[above.value].pc;
      }
      return 0;
    }
  }

  predicate OnLineAt(m: Index, keys: set<Word>, pc: Word, source: string, line: Word) {
    pc in keys && pc in m && OnLine(Some(m[pc]), source, line)
  }

  /** lines holds the lowest of the keys that are on each line. */
  ghost predicate LinesOf(m: Index, keys: set<Word>, source: string, lines: Index) {
    && (forall line :: line in lines <==> exists pc :: OnLineAt(m, keys, pc, source, line))
    && (forall line :: line in lines ==>
         OnLineAt(m, keys, lines[line].pc, source, line) && lines[line] == m[lines[line].pc])
    && (forall line, pc :: line in lines && OnLineAt(m, keys, pc, source, line) ==> lines[line].pc <= pc)
  }

  lemma NoLines(m: Index, source: string)
    ensures LinesOf(m, {}, source, map[])
  {
  }

  lemma LinesOfNext(m: Index, keys: set<Word>, source: string, lines: Index, k: Word)
    requires LinesOf(m, keys, source, lines) && k in m && m[k].pc == k && forall j :: j in keys ==> j < k
    ensures LinesOf(m, keys + {k}, source,
      if m[k].file == source && m[k].line !in lines then lines[m[k].line := m[k]] else lines)
  {
    forall pc, line
      ensures OnLineAt(m, keys + {k}, pc, source, line) <==>
        OnLineAt(m, keys, pc, source, line) || (pc == k && OnLine(Some(m[k]), source, line))
    {
    }
    var next := if m[k].file == source && m[k].line !in lines then lines[m[k].line := m[k]] else lines;
    forall line ensures line in next <==> exists pc :: OnLineAt(m, keys + {k}, pc, source, line) {
      if line in lines {
        assert OnLineAt(m, keys + {k}, lines[line].pc, source, line);
      } else if line in next {
        assert OnLineAt(m, keys + {k}, k, source, line);
      }
    }
  }

  ghost predicate IndexOf(m: Index, rows: seq<Location>) {
    forall pc: Word :: (pc in m <==> FirstAt(rows, pc).Some?) && (pc in m ==> FirstAt(rows, pc) == Some(m[pc]))
  }

  ghost predicate LineIndexOf(lines: Index, rows: seq<Location>, source: string) {
    forall line: Word ::
      (line in lines <==> HasLineRow(rows, source, line)) &&
      (line in lines ==> IsLineRow(rows, source, line, lines[line]))
  }

  lemma IndexKeys(m: Index, rows: seq<Location>)
    requires IndexOf(m, rows)
    ensures forall k :: k in m ==> m[k].pc == k
  {
    forall k | k in m ensures m[k].pc == k {
      FirstAtHasAddress(rows, k);
    }
  }

  lemma LinesOfAll(m: Index, rows: seq<Location>, source: string, lines: Index)
    requires IndexOf(m, rows) && LinesOf(m, m.Keys, source, lines)
    ensures LineIndexOf(lines, rows, source)
  {
    forall line: Word, pc: Word
      ensures OnLine(FirstAt(rows, pc), source, line) <==> OnLineAt(m, m.Keys, pc, source, line)
    {
    }
    forall line: Word ensures line in lines <==> HasLineRow(rows, source, line) {
      if line in lines {
        assert OnLine(FirstAt(rows, lines[line].pc), source, line);
      }
      if HasLineRow(rows, source, line) {
        var pc: Word :| OnLine(FirstAt(rows, pc), source, line);
        assert OnLineAt(m, m.Keys, pc, source, line);
      }
    }
  }

  function ExactByPC(rows: seq<Location>, source: string, pc: Word): Option<Location> {
    var r := FirstAt(rows, pc);
    if r.Some? && |source| > 0 && r.value.file != source then None else r
  }

  // ---------------------------------------------------------------------------------------
  // Main results

  lemma {:induction false} FirstAtAppend(rows: seq<Location>, row: Location, pc: Word)
    ensures FirstAt(rows + [row], pc) ==
      if FirstAt(rows, pc).Some? then FirstAt(rows, pc) else if row.pc == pc then Some(row) else None
  {
    if rows != [] {
      assert (rows + [row])[1..] == rows[1..] + [row];
      FirstAtAppend(rows[1..], row, pc);
    }
  }

  lemma {:induction false} FirstAtHasAddress(rows: seq<Location>, pc: Word)
    ensures FirstAt(rows, pc).Some? ==> FirstAt(rows, pc).value.pc == pc
  {
    if rows != [] {
      FirstAtHasAddress(rows[1..], pc);
    }
  }

  /** The scan finds the first row of the greatest address that is at most pc. */
  lemma {:induction false} ScanAtMostMeaning(rows: seq<Location>, pc: Word)
    ensures match ScanAtMost(rows, pc)
      case Some(r) => r.pc <= pc && FirstAt(rows, r.pc) == Some(r) &&
        forall a: Word :: FirstAt(rows, a).Some? && a <= pc ==> a <= r.pc
      case None => forall a: Word :: FirstAt(rows, a).Some? ==> pc < a
  {
    if rows != [] {
      ScanAtMostMeaning(rows[1..], pc);
    }
  }

  lemma {:induction false} RowAtLeast(rows: seq<Location>, pc: Word) returns (a: Word)
    requires SomeAtLeast(rows, pc)
    ensures a >= pc && FirstAt(rows, a).Some?
  {
    if rows[0].pc >= pc {
      a := rows[0].pc;
    } else {
      a := RowAtLeast(rows[1..], pc);
    }
  }

  lemma {:induction false} NoRowAtLeast(rows: seq<Location>, pc: Word, a: Word)
    requires !SomeAtLeast(rows, pc) && a >= pc
    ensures FirstAt(rows, a) == None
  {
    if rows != [] {
      NoRowAtLeast(rows[1..], pc, a);
    }
  }

  lemma {:induction false} ScanAboveMeaning(rows: seq<Location>, pc: Word)
    ensures var n := ScanAbove(rows, pc);
      if n == 0 then forall a: Word :: FirstAt(rows, a).Some? ==> a <= pc
      else n > pc && FirstAt(rows, n).Some? && forall a: Word :: FirstAt(rows, a).Some? && a > pc ==> n <= a
  {
    if rows != [] {
      ScanAboveMeaning(rows[1..], pc);
    }
  }

  /** A row of the main source has the line. */
  predicate IsRowOf(rows: seq<Location>, source: string, line: Word, k: int) {
    0 <= k < |rows| && rows[k].file == source && rows[k].line == line
  }

  /** No earlier row has the address of row k. */
  predicate IsFirstHere(rows: seq<Location>, k: nat)
    requires k < |rows|
  {
    forall m :: 0 <= m < k ==> rows[m].pc != rows[k].pc
  }

  /** A row of the main source has the line, and is the first at its address. */
  predicate IsKeptRow(rows: seq<Location>, source: string, line: Word, k: int) {
    IsRowOf(rows, source, line, k) && IsFirstHere(rows, k)
  }

  lemma {:induction false} FirstAtIs(rows: seq<Location>, k: nat)
    requires k < |rows|
    ensures FirstAt(rows, rows[k].pc) == Some(rows[k]) <== IsFirstHere(rows, k)
    ensures FirstAt(rows, rows[k].pc).Some?
  {
    if k > 0 && rows[0].pc != rows[k].pc {
      FirstAtIs(rows[1..], k - 1);
      if IsFirstHere(rows, k) {
        forall m | 0 <= m < k - 1 ensures rows[1..][m].pc != rows[1..][k - 1].pc {
          assert rows[1..][m] == rows[m + 1];
        }
      }
    }
  }

  lemma {:induction false} FirstAtPlace(rows: seq<Location>, pc: Word) returns (k: nat)
    requires FirstAt(rows, pc).Some?
    ensures k < |rows| && IsFirstHere(rows, k) && rows[k].pc == pc && FirstAt(rows, pc) == Some(rows[k])
  {
    if rows[0].pc == pc {
      k := 0;
    } else {
      var j := FirstAtPlace(rows[1..], pc);
      k := j + 1;
      forall m | 0 <= m < k ensures rows[m].pc != rows[k].pc {
        if m > 0 {
          assert rows[1..][m - 1] == rows[m];
        }
      }
    }
  }

  /** Looking a line up finds something exactly when some row of the main source has the line and
      is the first at its address; a row behind another at the same address is not seen. */
  lemma KeptRows(rows: seq<Location>, source: string, line: Word)
    ensures HasLineRow(rows, source, line) <==> exists k :: IsKeptRow(rows, source, line, k)
    ensures forall k, r :: IsKeptRow(rows, source, line, k) && IsLineRow(rows, source, line, r) ==> r.pc <= rows[k].pc
  {
    if HasLineRow(rows, source, line) {
      var pc: Word :| OnLine(FirstAt(rows, pc), source, line);
      var k := FirstAtPlace(rows, pc);
      assert IsKeptRow(rows, source, line, k);
    }
    forall k | IsKeptRow(rows, source, line, k) ensures OnLine(FirstAt(rows, rows[k].pc), source, line) {
      FirstAtIs(rows, k);
    }
  }

  /** The row at index k has the lowest address of all rows of a line. */
  ghost predicate IsLowestRow(rows: seq<Location>, source: string, line: Word, k: int) {
    IsRowOf(rows, source, line, k) && forall m :: IsRowOf(rows, source, line, m) ==> rows[k].pc <= rows[m].pc
  }

  /** What is found is at the lowest address of all rows of the line exactly when the first row
      emitted at that address is one of them. */
  lemma LowestIsFound(rows: seq<Location>, source: string, line: Word, k: nat, r: Location)
    requires IsLowestRow(rows, source, line, k) && IsLineRow(rows, source, line, r)
    ensures r.pc == rows[k].pc <==> OnLine(FirstAt(rows, rows[k].pc), source, line)
  {
    var m := FirstAtPlace(rows, r.pc);
    assert IsRowOf(rows, source, line, m);
  }

  /** Two rows of different lines at one address, as they are emitted for an empty statement: the
      second line has a row of the main source and cannot be found. */
  lemma SecondRowIsLost(source: string, pc: Word)
    ensures var rows := [Location(pc, source, 1, 0, false, false), Location(pc, source, 2, 0, false, false)];
      && IsRowOf(rows, source, 2, 1) && !HasLineRow(rows, source, 2)
      && HasLineRow(rows, source, 1)
  {
    var rows := [Location(pc, source, 1, 0, false, false), Location(pc, source, 2, 0, false, false)];
    KeptRows(rows, source, 2);
    KeptRows(rows, source, 1);
    assert IsKeptRow(rows, source, 1, 0);
    forall k ensures !IsKeptRow(rows, source, 2, k) {
      if k == 1 {
        assert rows[0].pc == rows[1].pc;
      }
    }
  }

  /** The address found for a line leads back to that line. */
  lemma LineRoundTrip(rows: seq<Location>, source: string, line: Word, r: Location)
    requires IsLineRow(rows, source, line, r)
    ensures ExactByPC(rows, source, r.pc) == Some(r) && r.line == line
  {
  }
}
