/** The address index against the sequences of the line number matrix (section 6.2 of DWARF
    version 4): addLineStateMachine also indexes the rows that end a sequence. */
module LineSequences {
  import opened Machine
  import opened LineIndex
  import LineMachine

  type Row = LineMachine.Registers

  /** Section 6.2.5: row k of the matrix stands for the addresses up to the next row of its
      sequence. */
  predicate Covers(regs: seq<Row>, k: int, pc: Word) {
    0 <= k && k + 1 < |regs| && !regs[k].endSequence && regs[k].address <= pc < regs[k + 1].address
  }

  /** pc lies in no sequence. */
  ghost predicate InNoSequence(regs: seq<Row>, pc: Word) {
    forall k :: !Covers(regs, k, pc)
  }

  lemma {:induction false} LocationsAt(regs: seq<Row>, name: Word -> string, k: nat)
    requires k < |regs|
    ensures |Locations(regs, name)| == |regs| && Locations(regs, name)[k] == LocationOf(regs[k], name)
  {
    if |regs| > 1 {
      LocationsAt(regs[1..], name, if k > 0 then k - 1 else 0);
    } else {
      assert regs[1..] == [];
    }
  }

  lemma {:induction false} SomeAtLeastMeans(rows: seq<Location>, pc: Word)
    ensures SomeAtLeast(rows, pc) <==> exists k :: 0 <= k < |rows| && rows[k].pc >= pc
  {
    if rows != [] {
      SomeAtLeastMeans(rows[1..], pc);
      forall k | 1 <= k < |rows| ensures rows[1..][k - 1] == rows[k] {
      }
      if SomeAtLeast(rows[1..], pc) {
        var j :| 0 <= j < |rows[1..]| && rows[1..][j].pc >= pc;
        assert rows[j + 1].pc >= pc;
      }
    }
  }

  /** The index gives a row exactly when some row lies at or below pc and some at or above it,
      and then the first row of the greatest address at most pc. */
  lemma ByPCMeans(rows: seq<Location>, pc: Word)
    ensures ByPC(rows, pc).Some? <==>
      (exists k :: 0 <= k < |rows| && rows[k].pc <= pc) && (exists k :: 0 <= k < |rows| && rows[k].pc >= pc)
    ensures ByPC(rows, pc).Some? ==>
      var r := ByPC(rows, pc).value;
      && r.pc <= pc && FirstAt(rows, r.pc) == Some(r)
      && forall k :: 0 <= k < |rows| && rows[k].pc <= pc ==> rows[k].pc <= r.pc
  {
    SomeAtLeastMeans(rows, pc);
    ScanAtMostMeaning(rows, pc);
    forall k | 0 <= k < |rows| ensures FirstAt(rows, rows[k].pc).Some? {
      FirstAtIs(rows, k);
    }
    if ScanAtMost(rows, pc).Some? {
      var k := FirstAtPlace(rows, ScanAtMost(rows, pc).value.pc);
      assert rows[k].pc <= pc;
    }
  }

  /** Inside a sequence the index gives the row that stands for pc exactly when no other row lies
      above it up to pc, and it is the first of all rows at its address. */
  lemma CoveredIsFound(regs: seq<Row>, name: Word -> string, k: nat, pc: Word)
    requires Covers(regs, k, pc)
    ensures var rows := Locations(regs, name);
      var r := ByPC(rows, pc);
      var nearest := forall m :: 0 <= m < |regs| ==> !(regs[k].address < regs[m].address <= pc);
      && r.Some? && |rows| == |regs|
      && (r.value.pc == regs[k].address <==> nearest)
      && (r == Some(rows[k]) <==> nearest && FirstAt(rows, regs[k].address) == Some(rows[k]))
  {
    var rows := Locations(regs, name);
    forall m | 0 <= m < |regs| ensures |rows| == |regs| && rows[m].pc == regs[m].address {
      LocationsAt(regs, name, m);
    }
    assert rows[k].pc <= pc && rows[k + 1].pc >= pc;
    ByPCMeans(rows, pc);
    var r := ByPC(rows, pc).value;
    var at := FirstAtPlace(rows, r.pc);
    assert regs[at].address == r.pc;
  }

  /** Rows do not reach into the range that another row stands for. */
  ghost predicate Tidy(regs: seq<Row>) {
    forall k, m :: 0 <= k && k + 1 < |regs| && !regs[k].endSequence && 0 <= m < |regs| ==>
      !(regs[k].address < regs[m].address < regs[k + 1].address)
  }

  /** The address found for a pc that row k stands for is that of row k. */
  predicate FindsRow(regs: seq<Row>, name: Word -> string, k: nat, pc: Word)
    requires k < |regs|
  {
    var r := ByPC(Locations(regs, name), pc);
    r.Some? && r.value.pc == regs[k].address
  }

  lemma TidyFinds(regs: seq<Row>, name: Word -> string, k: nat, pc: Word)
    requires Tidy(regs) && Covers(regs, k, pc)
    ensures FindsRow(regs, name, k, pc)
  {
    CoveredIsFound(regs, name, k, pc);
  }

  lemma UntidyMisses(regs: seq<Row>, name: Word -> string) returns (k: nat, pc: Word)
    requires !Tidy(regs)
    ensures Covers(regs, k, pc) && !FindsRow(regs, name, k, pc)
  {
    var i, m :| 0 <= i && i + 1 < |regs| && !regs[i].endSequence && 0 <= m < |regs| &&
      regs[i].address < regs[m].address < regs[i + 1].address;
    k, pc := i, regs[m].address;
    CoveredIsFound(regs, name, k, pc);
  }

  /** For every pc inside a sequence the address found is that of the row that stands for it,
      exactly when no row reaches into the range of another. */
  lemma {:induction false} SequencesAreFoundExactly(regs: seq<Row>, name: Word -> string)
    ensures (forall k: nat, pc: Word :: Covers(regs, k, pc) ==> FindsRow(regs, name, k, pc)) <==> Tidy(regs)
  {
    hide FindsRow, Tidy;
    if Tidy(regs) {
      forall k: nat, pc: Word | Covers(regs, k, pc) ensures FindsRow(regs, name, k, pc) {
        TidyFinds(regs, name, k, pc);
      }
    } else {
      var k, pc := UntidyMisses(regs, name);
    }
  }

  /** Between sequences nothing stands for pc, and still the index finds a row, exactly when pc
      lies between the lowest and the highest row. */
  lemma GapIsFilled(regs: seq<Row>, name: Word -> string, pc: Word)
    requires InNoSequence(regs, pc)
    ensures ByPC(Locations(regs, name), pc) == None <==>
      (forall k :: 0 <= k < |regs| ==> pc < regs[k].address) || (forall k :: 0 <= k < |regs| ==> regs[k].address < pc)
  {
    var rows := Locations(regs, name);
    if regs == [] {
      assert rows == [];
    } else {
      LocationsAt(regs, name, 0);
      forall m | 0 <= m < |regs| ensures rows[m].pc == regs[m].address {
        LocationsAt(regs, name, m);
      }
    }
    ByPCMeans(rows, pc);
  }

  function At(address: Word, line: Word, last: bool): Row {
    LineMachine.Registers(address, 0, 1, line, 0, true, false, last, false, false, 0, 0)
  }

  /** Two functions with padding in between, and two without. */
  const APART: seq<Row> := [At(0x10, 1, false), At(0x20, 2, true), At(0x30, 7, false), At(0x40, 8, true)]
  const ADJACENT: seq<Row> := [At(0x10, 1, false), At(0x20, 2, true), At(0x20, 7, false), At(0x40, 8, true)]

  /** In the padding the row that ends the first function is found, and where the second follows
      at once, that row hides the second's own first row. */
  lemma EndRowsAreFound(name: Word -> string)
    ensures InNoSequence(APART, 0x28) && ByPC(Locations(APART, name), 0x28) == Some(LocationOf(APART[1], name))
    ensures Covers(ADJACENT, 2, 0x28) && ByPC(Locations(ADJACENT, name), 0x28) == Some(LocationOf(ADJACENT[1], name))
    ensures LocationOf(ADJACENT[1], name) != LocationOf(ADJACENT[2], name)
  {
    FoundInFour(APART, name);
    FoundInFour(ADJACENT, name);
  }

  lemma {:induction false} FoundInFour(regs: seq<Row>, name: Word -> string)
    requires |regs| == 4 && regs[0].address == 0x10 && regs[1].address == 0x20
    requires regs[2].address == 0x20 || regs[2].address == 0x30
    requires regs[3].address == 0x40
    ensures ByPC(Locations(regs, name), 0x28) == Some(LocationOf(regs[1], name))
  {
    var rows := Locations(regs, name);
    LocationsAt(regs, name, 0);
    LocationsAt(regs, name, 1);
    LocationsAt(regs, name, 2);
    LocationsAt(regs, name, 3);
    ByPCMeans(rows, 0x28);
    assert rows[1].pc <= 0x28 && rows[3].pc >= 0x28;
    var r := ByPC(rows, 0x28).value;
    var k := FirstAtPlace(rows, r.pc);
    FirstAtIs(rows, 1);
    assert IsFirstHere(rows, 1);
  }
}
