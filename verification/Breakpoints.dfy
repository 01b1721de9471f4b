/** Breakpoints as overlays on the text of the traced process: a breakpoint saves the 8-byte
    word at its address and writes another over it. */
module Breakpoints {
  import opened Machine
  import Cfa
  import LineIndex

  /** An 8-byte word as its bytes in memory order. */
  type Bytes8 = b: seq<Byte> | |b| == 8 witness [0, 0, 0, 0, 0, 0, 0, 0]

  /** BREAKPOINT_WORD widened to a word. */
  function Trap(a: Cfa.Arch): Bytes8 {
    match a
    case X86_64 => [0xcc, 0, 0, 0, 0, 0, 0, 0]
    case AArch64 => [0, 0, 0x20, 0xd4, 0, 0, 0, 0]
  }

  /** The value of a word: both machines store its lowest byte first. */
  function WordOf(w: Bytes8): int {
    var b := (i: nat) requires i < 8 => w[i] as int;
    b(0) + 0x100 * b(1) + 0x1_0000 * b(2) + 0x100_0000 * b(3) + 0x1_0000_0000 * b(4) +
    0x100_0000_0000 * b(5) + 0x1_0000_0000_0000 * b(6) + 0x100_0000_0000_0000 * b(7)
  }

  predicate Mapped(mem: seq<Byte>, a: Word) {
    a + 8 <= |mem|
  }

  predicate InWord(i: int, a: Word) {
    a <= i < a + 8
  }

  function Peek(mem: seq<Byte>, a: Word): Bytes8
    requires Mapped(mem, a)
  {
    mem[a..a + 8]
  }

  function Poke(mem: seq<Byte>, a: Word, w: Bytes8): (r: seq<Byte>)
    requires Mapped(mem, a)
    ensures |r| == |mem|
    ensures forall i :: 0 <= i < |mem| ==> r[i] == if InWord(i, a) then w[i - a] else mem[i]
  {
    mem[..a] + w + mem[a + 8..]
  }

  // ---------------------------------------------------------------------------------------
  // The overlay

  datatype Overlay = Overlay(mem: seq<Byte>, saved: map<Word, Bytes8>)
  {
    ghost predicate Fits() {
      forall a :: a in saved ==> Mapped(mem, a)
    }
  }

  /** insertBreak. */
  function Insert(t: Bytes8, o: Overlay, a: Word): Overlay
    requires Mapped(o.mem, a)
  {
    if a in o.saved then o else Overlay(Poke(o.mem, a, t), o.saved[a := Peek(o.mem, a)])
  }

  /** removeBreak. */
  function Remove(o: Overlay, a: Word): Overlay
    requires a in o.saved && Mapped(o.mem, a)
  {
    Overlay(Poke(o.mem, a, o.saved[a]), o.saved - {a})
  }

  /** No two words overlap. */
  ghost predicate Apart(keys: set<Word>) {
    forall a, b :: a in keys && b in keys && a != b ==> a + 8 <= b || b + 8 <= a
  }

  /** Writing all saved words back gives the original text, and the installed words are the
      only difference from it. */
  ghost predicate Overlays(t: Bytes8, o: Overlay, text: seq<Byte>) {
    && |o.mem| == |text| && o.Fits()
    && (forall a, i :: a in o.saved && InWord(i, a) ==> o.saved[a][i - a] == text[i] && o.mem[i] == t[i - a])
    && (forall i :: 0 <= i < |text| && (forall a :: a in o.saved ==> !InWord(i, a)) ==> o.mem[i] == text[i])
  }

  lemma InsertOverlays(t: Bytes8, o: Overlay, text: seq<Byte>, a: Word)
    requires Overlays(t, o, text) && Mapped(o.mem, a) && Apart(o.saved.Keys + {a})
    ensures Overlays(t, Insert(t, o, a), text)
  {
    if a !in o.saved {
      var r := Insert(t, o, a);
      forall b, i | b in r.saved && InWord(i, b)
        ensures r.saved[b][i - b] == text[i] && r.mem[i] == t[i - b]
      {
        if b == a {
          assert forall c :: c in o.saved ==> c in o.saved.Keys + {a} && !InWord(i, c);
        } else {
          assert b in o.saved.Keys + {a} && a in o.saved.Keys + {a} && !InWord(i, a);
        }
      }
      forall i | 0 <= i < |text| && forall c :: c in r.saved ==> !InWord(i, c)
        ensures r.mem[i] == text[i]
      {
        assert a in r.saved && !InWord(i, a);
        assert forall c :: c in o.saved ==> c in r.saved && !InWord(i, c);
      }
    }
  }

  lemma RemoveOverlays(t: Bytes8, o: Overlay, text: seq<Byte>, a: Word)
    requires Overlays(t, o, text) && a in o.saved && Apart(o.saved.Keys)
    ensures Overlays(t, Remove(o, a), text)
  {
  }

  /** With no breakpoint left, memory is the original text. */
  lemma EmptyOverlayIsText(t: Bytes8, o: Overlay, text: seq<Byte>)
    requires Overlays(t, o, text) && o.saved == map[]
    ensures o.mem == text
  {
  }

  /** Removal as the flush does it: an address without a breakpoint is passed over. */
  function Withdraw(o: Overlay, a: Word): Overlay
    requires o.Fits()
  {
    if a in o.saved then Remove(o, a) else o
  }

  function WithdrawAll(o: Overlay, order: seq<Word>): (r: Overlay)
    requires o.Fits()
    ensures r.Fits() && |r.mem| == |o.mem|
    decreases |order|
  {
    if order == [] then o else WithdrawAll(Withdraw(o, order[0]), order[1..])
  }

  predicate AllMapped(mem: seq<Byte>, order: seq<Word>) {
    order == [] || (Mapped(mem, order[0]) && AllMapped(mem, order[1..]))
  }

  lemma {:induction false} AllMappedEverywhere(mem: seq<Byte>, mem': seq<Byte>, order: seq<Word>)
    requires AllMapped(mem, order) && |mem'| == |mem|
    ensures AllMapped(mem', order)
  {
    if order != [] {
      AllMappedEverywhere(mem, mem', order[1..]);
    }
  }

  function InsertAll(t: Bytes8, o: Overlay, order: seq<Word>): (r: Overlay)
    requires o.Fits() && AllMapped(o.mem, order)
    ensures r.Fits() && |r.mem| == |o.mem|
    decreases |order|
  {
    if order == [] then o
    else
      AllMappedEverywhere(o.mem, Insert(t, o, order[0]).mem, order[1..]);
      InsertAll(t, Insert(t, o, order[0]), order[1..])
  }

  function Elements(order: seq<Word>): set<Word> {
    set a | a in order
  }

  /** Whatever the order in which they are removed, the original text comes back. */
  lemma {:induction false} AnyOrderRestores(t: Bytes8, o: Overlay, text: seq<Byte>, order: seq<Word>)
    requires Overlays(t, o, text) && Apart(o.saved.Keys) && o.saved.Keys <= Elements(order)
    ensures WithdrawAll(o, order) == Overlay(text, map[])
    decreases |order|
  {
    if order == [] {
      EmptyOverlayIsText(t, o, text);
    } else {
      if order[0] in o.saved {
        RemoveOverlays(t, o, text, order[0]);
      }
      assert Elements(order) == {order[0]} + Elements(order[1..]);
      AnyOrderRestores(t, Withdraw(o, order[0]), text, order[1..]);
    }
  }

  // ---------------------------------------------------------------------------------------
  // Overlapping words

  function Reverse(s: seq<Word>): seq<Word> {
    if s == [] then [] else Reverse(s[1..]) + [s[0]]
  }

  /** order lists addresses outside keys, each once. */
  predicate Fresh(order: seq<Word>, keys: set<Word>) {
    order == [] || (order[0] !in keys && Fresh(order[1..], keys + {order[0]}))
  }

  lemma {:induction false} WithdrawConcat(o: Overlay, a: seq<Word>, b: seq<Word>)
    requires o.Fits()
    ensures WithdrawAll(o, a + b) == WithdrawAll(WithdrawAll(o, a), b)
    decreases |a|
  {
    if a == [] {
      assert a + b == b;
    } else {
      assert (a + b)[1..] == a[1..] + b;
      WithdrawConcat(Withdraw(o, a[0]), a[1..], b);
    }
  }

  lemma RemoveUndoesInsert(t: Bytes8, o: Overlay, a: Word)
    requires o.Fits() && Mapped(o.mem, a) && a !in o.saved
    ensures Remove(Insert(t, o, a), a) == o
  {
  }

  /** However the words overlap, removal in the reverse order of insertion restores memory. */
  lemma {:induction false} ReverseOrderRestores(t: Bytes8, o: Overlay, order: seq<Word>)
    requires o.Fits() && AllMapped(o.mem, order) && Fresh(order, o.saved.Keys)
    ensures WithdrawAll(InsertAll(t, o, order), Reverse(order)) == o
    decreases |order|
  {
    if order != [] {
      var a, rest := order[0], order[1..];
      var p := Insert(t, o, a);
      AllMappedEverywhere(o.mem, p.mem, rest);
      assert p.saved.Keys == o.saved.Keys + {a};
      ReverseOrderRestores(t, p, rest);
      WithdrawConcat(InsertAll(t, p, rest), Reverse(rest), [a]);
      assert [a][1..] == [];
      assert WithdrawAll(p, [a]) == WithdrawAll(Withdraw(p, a), []);
      RemoveUndoesInsert(t, o, a);
    }
  }

  /** Two overlapping breakpoints removed in the order of insertion: the bytes that both words
      cover keep the bytes of the first one's trap. */
  lemma FirstInFirstOut(t: Bytes8, text: seq<Byte>, a: Word, b: Word)
    requires Mapped(text, a) && Mapped(text, b) && a != b
    ensures var o := WithdrawAll(InsertAll(t, Overlay(text, map[]), [a, b]), [a, b]);
      && o.saved == map[] && |o.mem| == |text|
      && (forall i :: 0 <= i < |text| ==> o.mem[i] == if InWord(i, a) && InWord(i, b) then t[i - a] else text[i])
      && (o.mem == text <==> forall i :: InWord(i, a) && InWord(i, b) ==> text[i] == t[i - a])
  {
    assert [a, b][1..] == [b] && [b][1..] == [];
    var o := Overlay(text, map[]);
    var p := Insert(t, o, a);
    var q := Insert(t, p, b);
    assert InsertAll(t, p, [b]) == InsertAll(t, q, []);
    var r := Remove(q, a);
    assert WithdrawAll(q, [a, b]) == WithdrawAll(r, [b]);
    assert WithdrawAll(r, [b]) == WithdrawAll(Remove(r, b), []);
    assert r.saved.Keys == {b};
    assert Remove(r, b).saved == map[];
  }

  // ---------------------------------------------------------------------------------------
  // Queued changes and the flush

  datatype Tracee = Tracee(overlay: Overlay, toAdd: set<Word>, toRemove: set<Word>)

  /** The iteration order of a std::set of addresses. */
  ghost function Sorted(keys: set<Word>): (order: seq<Word>)
    ensures Elements(order) == keys
    decreases keys
  {
    if keys == {} then []
    else
      LineIndex.LeastExists(keys);
      var m :| LineIndex.IsLeast(keys, m);
      var rest := Sorted(keys - {m});
      assert Elements([m] + rest) == {m} + Elements(rest);
      [m] + rest
  }

  ghost predicate CanFlush(s: Tracee) {
    s.overlay.Fits() && AllMapped(s.overlay.mem, Sorted(s.toAdd))
  }

  /** The flush at the start of step: all additions in order, then all removals in order. */
  ghost function Flush(t: Bytes8, s: Tracee): Tracee
    requires CanFlush(s)
  {
    Tracee(WithdrawAll(InsertAll(t, s.overlay, Sorted(s.toAdd)), Sorted(s.toRemove)), {}, {})
  }

  lemma {:induction false} InsertAllKeys(t: Bytes8, o: Overlay, order: seq<Word>)
    requires o.Fits() && AllMapped(o.mem, order)
    ensures InsertAll(t, o, order).saved.Keys == o.saved.Keys + Elements(order)
    decreases |order|
  {
    if order != [] {
      var p := Insert(t, o, order[0]);
      AllMappedEverywhere(o.mem, p.mem, order[1..]);
      InsertAllKeys(t, p, order[1..]);
      assert Elements(order) == {order[0]} + Elements(order[1..]);
    }
  }

  lemma {:induction false} WithdrawAllKeys(o: Overlay, order: seq<Word>)
    requires o.Fits()
    ensures WithdrawAll(o, order).saved.Keys == o.saved.Keys - Elements(order)
    decreases |order|
  {
    if order != [] {
      WithdrawAllKeys(Withdraw(o, order[0]), order[1..]);
      assert Elements(order) == {order[0]} + Elements(order[1..]);
    }
  }

  lemma InsertFirst(t: Bytes8, o: Overlay, keys: set<Word>, a: Word)
    requires Sorted(keys) == [a] + Sorted(keys - {a}) && o.Fits() && AllMapped(o.mem, Sorted(keys))
    ensures Mapped(o.mem, a) && Insert(t, o, a).Fits() && AllMapped(Insert(t, o, a).mem, Sorted(keys - {a}))
    ensures InsertAll(t, o, Sorted(keys)) == InsertAll(t, Insert(t, o, a), Sorted(keys - {a}))
  {
    hide Sorted;
    var rest := Sorted(keys - {a});
    assert ([a] + rest)[1..] == rest;
    AllMappedEverywhere(o.mem, Insert(t, o, a).mem, rest);
  }

  lemma WithdrawFirst(o: Overlay, keys: set<Word>, a: Word)
    requires Sorted(keys) == [a] + Sorted(keys - {a}) && o.Fits()
    ensures Withdraw(o, a).Fits() && WithdrawAll(o, Sorted(keys)) == WithdrawAll(Withdraw(o, a), Sorted(keys - {a}))
    ensures a in o.saved ==> Mapped(o.mem, a) && Withdraw(o, a) == Remove(o, a)
    ensures a !in o.saved ==> Withdraw(o, a) == o
  {
    hide Sorted;
    assert ([a] + Sorted(keys - {a}))[1..] == Sorted(keys - {a});
  }

  lemma InsertNone(t: Bytes8, o: Overlay)
    requires o.Fits()
    ensures AllMapped(o.mem, Sorted({})) && InsertAll(t, o, Sorted({})) == o && WithdrawAll(o, Sorted({})) == o
  {
  }

  /** After a flush the breakpoints are the installed and the added ones, less the removed. */
  lemma FlushKeys(t: Bytes8, s: Tracee)
    requires CanFlush(s)
    ensures Flush(t, s).overlay.saved.Keys == (s.overlay.saved.Keys + s.toAdd) - s.toRemove
  {
    InsertAllKeys(t, s.overlay, Sorted(s.toAdd));
    WithdrawAllKeys(InsertAll(t, s.overlay, Sorted(s.toAdd)), Sorted(s.toRemove));
  }

  lemma {:induction false} InsertAllOverlays(t: Bytes8, o: Overlay, text: seq<Byte>, order: seq<Word>, all: set<Word>)
    requires Overlays(t, o, text) && AllMapped(o.mem, order)
    requires o.saved.Keys + Elements(order) <= all && Apart(all)
    ensures Overlays(t, InsertAll(t, o, order), text)
    decreases |order|
  {
    if order != [] {
      var p := Insert(t, o, order[0]);
      assert order[0] in Elements(order) && Elements(order) == {order[0]} + Elements(order[1..]);
      InsertOverlays(t, o, text, order[0]);
      AllMappedEverywhere(o.mem, p.mem, order[1..]);
      InsertAllOverlays(t, p, text, order[1..], all);
    }
  }

  lemma {:induction false} WithdrawAllOverlays(t: Bytes8, o: Overlay, text: seq<Byte>, order: seq<Word>)
    requires Overlays(t, o, text) && Apart(o.saved.Keys)
    ensures Overlays(t, WithdrawAll(o, order), text)
    decreases |order|
  {
    if order != [] {
      if order[0] in o.saved {
        RemoveOverlays(t, o, text, order[0]);
      }
      WithdrawAllOverlays(t, Withdraw(o, order[0]), text, order[1..]);
    }
  }

  /** What changes the breakpoints: a request to queue or remove one, the flush, and the direct
      calls of insertBreak and removeBreak, at the first symbol, the return address of a call or
      the next line, and at a breakpoint that is hit. */
  datatype Change =
    | Queue(addr: Word)
    | Unqueue(addr: Word)
    | FlushAll
    | InsertNow(addr: Word)
    | RemoveNow(addr: Word)

  /** The words that a change pokes are mapped, and removeBreak is given an installed one. */
  ghost predicate CanApply(s: Tracee, c: Change) {
    match c
    case FlushAll => CanFlush(s)
    case InsertNow(a) => Mapped(s.overlay.mem, a)
    case RemoveNow(a) => a in s.overlay.saved && Mapped(s.overlay.mem, a)
    case _ => true
  }

  ghost function Apply(t: Bytes8, s: Tracee, c: Change): Tracee
    requires CanApply(s, c)
  {
    match c
    case Queue(a) => s.(toAdd := s.toAdd + {a})
    case Unqueue(a) => s.(toAdd := s.toAdd - {a}, toRemove := s.toRemove + {a})
    case FlushAll => Flush(t, s)
    case InsertNow(a) => s.(overlay := Insert(t, s.overlay, a))
    case RemoveNow(a) => s.(overlay := Remove(s.overlay, a))
  }

  /** The changes can be applied one after the other. */
  ghost predicate CanApplyAll(t: Bytes8, s: Tracee, cs: seq<Change>)
    decreases |cs|
  {
    cs == [] || (CanApply(s, cs[0]) && CanApplyAll(t, Apply(t, s, cs[0]), cs[1..]))
  }

  ghost function ApplyAll(t: Bytes8, s: Tracee, cs: seq<Change>): Tracee
    requires CanApplyAll(t, s, cs)
    decreases |cs|
  {
    if cs == [] then s else ApplyAll(t, Apply(t, s, cs[0]), cs[1..])
  }

  /** What the requests ask for at an address: the last one that names it decides, and without
      any the breakpoint stays as it is. */
  predicate Wanted(installed: bool, cs: seq<Change>, a: Word)
    decreases |cs|
  {
    if cs == [] then installed
    else Wanted(if cs[0] == Queue(a) then true else if cs[0] == Unqueue(a) then false else installed, cs[1..], a)
  }

  /** Whether a breakpoint is installed after the direct insertions and removals: a hit takes it
      away, a stop that is set puts it there. */
  predicate Standing(installed: bool, cs: seq<Change>, a: Word)
    decreases |cs|
  {
    if cs == [] then installed
    else
      var now := if cs[0] == InsertNow(a) then true else if cs[0] == RemoveNow(a) then false else installed;
      Standing(now, cs[1..], a)
  }

  lemma {:induction false} ChangesMean(t: Bytes8, s: Tracee, cs: seq<Change>, a: Word)
    requires FlushAll !in cs && CanApplyAll(t, s, cs)
    ensures var r := ApplyAll(t, s, cs);
      && (a in r.overlay.saved <==> Standing(a in s.overlay.saved, cs, a))
      && (a in r.toRemove <==> a in s.toRemove || Unqueue(a) in cs)
      && (a in r.toAdd ==> a in s.toAdd || Queue(a) in cs)
      && ((a in s.toAdd || Queue(a) in cs) && Unqueue(a) !in cs ==> a in r.toAdd)
    decreases |cs|
  {
    if cs != [] {
      assert forall c :: c in cs <==> c == cs[0] || c in cs[1..];
      ChangesMean(t, Apply(t, s, cs[0]), cs[1..], a);
    }
  }

  lemma {:induction false} WantedWithoutRemoval(installed: bool, cs: seq<Change>, a: Word)
    requires Unqueue(a) !in cs
    ensures Wanted(installed, cs, a) == (installed || Queue(a) in cs)
    decreases |cs|
  {
    if cs != [] {
      assert forall c :: c in cs <==> c == cs[0] || c in cs[1..];
      WantedWithoutRemoval(cs[0] == Queue(a) || installed, cs[1..], a);
    }
  }

  /** Whatever happens between two flushes, the second does what the last request for an address
      asked, unless that was to queue it after it had been removed: then the breakpoint is lost.
      An address without a request stays as the direct insertions and hits have left it. */
  lemma LastRequestWins(t: Bytes8, s: Tracee, cs: seq<Change>, a: Word)
    requires FlushAll !in cs && s.toAdd == s.toRemove == {}
    requires CanApplyAll(t, s, cs) && CanFlush(ApplyAll(t, s, cs))
    ensures var installed := a in Flush(t, ApplyAll(t, s, cs)).overlay.saved;
      var standing := Standing(a in s.overlay.saved, cs, a);
      var wanted := Wanted(standing, cs, a);
      && (installed <==> (standing || Queue(a) in cs) && Unqueue(a) !in cs)
      && (installed == wanted <==> !(wanted && Unqueue(a) in cs))
  {
    hide ApplyAll, Wanted, CanApplyAll, Standing, CanFlush, Flush;
    FlushKeys(t, ApplyAll(t, s, cs));
    ChangesMean(t, s, cs, a);
    if Unqueue(a) !in cs {
      WantedWithoutRemoval(Standing(a in s.overlay.saved, cs, a), cs, a);
    }
  }

  lemma {:induction false} AllMappedFrom(mem: seq<Byte>, order: seq<Word>)
    requires forall a :: a in order ==> Mapped(mem, a)
    ensures AllMapped(mem, order)
  {
    if order != [] {
      AllMappedFrom(mem, order[1..]);
    }
  }

  lemma MappedInOrder(mem: seq<Byte>, keys: set<Word>)
    requires forall a :: a in keys ==> Mapped(mem, a)
    ensures AllMapped(mem, Sorted(keys))
  {
    assert forall a :: a in Sorted(keys) <==> a in Elements(Sorted(keys));
    AllMappedFrom(mem, Sorted(keys));
  }

  /** An installed breakpoint that is removed and queued again before a flush is lost. */
  lemma RequeuedBreakpointIsLost(t: Bytes8, o: Overlay, a: Word)
    requires o.Fits() && a in o.saved
    ensures var s, cs := Tracee(o, {}, {}), [Unqueue(a), Queue(a)];
      && CanApplyAll(t, s, cs) && CanFlush(ApplyAll(t, s, cs))
      && Wanted(true, cs, a) && a !in Flush(t, ApplyAll(t, s, cs)).overlay.saved
  {
    hide Sorted, Flush;
    var s, cs := Tracee(o, {}, {}), [Unqueue(a), Queue(a)];
    var s1 := Apply(t, s, Unqueue(a));
    var s2 := Apply(t, s1, Queue(a));
    assert cs[1..] == [Queue(a)] && cs[1..][1..] == [];
    assert CanApplyAll(t, s2, []) && CanApplyAll(t, s1, [Queue(a)]) && CanApplyAll(t, s, cs);
    assert ApplyAll(t, s2, []) == s2 && ApplyAll(t, s1, [Queue(a)]) == s2 && ApplyAll(t, s, cs) == s2;
    assert Wanted(true, [], a) && Wanted(false, [Queue(a)], a) && Wanted(true, cs, a);
    MappedInOrder(o.mem, s2.toAdd);
    assert Standing(true, [], a) && Standing(true, [Queue(a)], a) && Standing(true, cs, a);
    LastRequestWins(t, s, cs, a);
    assert Unqueue(a) in cs;
  }

  ghost predicate IsRun(t: Bytes8, text: seq<Byte>, tr: seq<Tracee>, cs: seq<Change>) {
    && |tr| == |cs| + 1 && tr[0] == Tracee(Overlay(text, map[]), {}, {})
    && forall i :: 0 <= i < |cs| ==> CanApply(tr[i], cs[i]) && tr[i + 1] == Apply(t, tr[i], cs[i])
  }

  /** The change inserts, now or at a flush, only at addresses in all. */
  predicate InsertsWithin(c: Change, all: set<Word>) {
    c.Queue? || c.InsertNow? ==> c.addr in all
  }

  lemma ApplyOverlays(t: Bytes8, s: Tracee, c: Change, text: seq<Byte>, all: set<Word>)
    requires CanApply(s, c) && InsertsWithin(c, all) && Apart(all)
    requires Overlays(t, s.overlay, text) && s.overlay.saved.Keys <= all && s.toAdd <= all
    ensures var r := Apply(t, s, c);
      Overlays(t, r.overlay, text) && r.overlay.saved.Keys <= all && r.toAdd <= all
  {
    hide Overlays;
    match c
    case InsertNow(a) => InsertOverlays(t, s.overlay, text, a);
    case RemoveNow(a) => RemoveOverlays(t, s.overlay, text, a);
    case FlushAll =>
      var p := InsertAll(t, s.overlay, Sorted(s.toAdd));
      InsertAllOverlays(t, s.overlay, text, Sorted(s.toAdd), all);
      InsertAllKeys(t, s.overlay, Sorted(s.toAdd));
      WithdrawAllOverlays(t, p, text, Sorted(s.toRemove));
      FlushKeys(t, s);
    case _ =>
  }

  /** While the addresses ever queued or inserted are at least 8 bytes apart, in every reachable
      state memory is the original text with exactly the installed words overlaid. */
  lemma {:induction false} EveryRunOverlaysText(t: Bytes8, text: seq<Byte>, tr: seq<Tracee>, cs: seq<Change>,
                                                all: set<Word>, i: nat)
    requires IsRun(t, text, tr, cs) && i < |tr|
    requires Apart(all) && forall k :: 0 <= k < |cs| ==> InsertsWithin(cs[k], all)
    ensures Overlays(t, tr[i].overlay, text)
    ensures tr[i].overlay.saved.Keys <= all && tr[i].toAdd <= all
  {
    if i > 0 {
      EveryRunOverlaysText(t, text, tr, cs, all, i - 1);
      assert tr[i] == Apply(t, tr[i - 1], cs[i - 1]);
      ApplyOverlays(t, tr[i - 1], cs[i - 1], text, all);
    }
  }

  // ---------------------------------------------------------------------------------------
  // The object

  datatype Range = Range(start: Word, end: Word)

  predicate InRanges(ranges: seq<Range>, a: Word) {
    ranges != [] && (ranges[0].start <= a < ranges[0].end || InRanges(ranges[1..], a))
  }

  lemma {:induction false} InRangesMeans(ranges: seq<Range>, a: Word)
    ensures InRanges(ranges, a) <==> exists k :: 0 <= k < |ranges| && ranges[k].start <= a < ranges[k].end
  {
    if ranges != [] {
      InRangesMeans(ranges[1..], a);
      if InRanges(ranges[1..], a) {
        var k :| 0 <= k < |ranges[1..]| && ranges[1..][k].start <= a < ranges[1..][k].end;
        assert ranges[k + 1].start <= a < ranges[k + 1].end;
      }
      if k :| 1 <= k < |ranges| && ranges[k].start <= a < ranges[k].end {
        assert ranges[1..][k - 1] == ranges[k];
      }
    }
  }

  /** The lines that exactLocationByPC gives for a set of addresses. */
  ghost function LinesAt(info: LineIndex.Info, addrs: set<Word>): set<Word>
    reads info
  {
    set a | a in addrs && LineIndex.ExactByPC(info.rows, info.cuSrcName, a).Some?
      :: LineIndex.ExactByPC(info.rows, info.cuSrcName, a).value.line
  }

  lemma NoLinesAt(info: LineIndex.Info, list: seq<Word>)
    ensures LinesAt(info, Elements(list[..0])) == {}
  {
  }

  lemma LinesAtNext(info: LineIndex.Info, list: seq<Word>, n: nat)
    requires n < |list|
    ensures LinesAt(info, Elements(list[..n + 1])) == LinesAt(info, Elements(list[..n])) +
      match LineIndex.ExactByPC(info.rows, info.cuSrcName, list[n])
      case Some(r) => {r.line}
      case None => {}
  {
  }

  class Stepper {
    const arch: Cfa.Arch
    const memoryRanges: seq<Range>
    const dwarfInfo: LineIndex.Info
    /** The text of the traced process. */
    var mem: seq<Byte>
    var breakpointMap: map<Word, Bytes8>
    var breakpointsToAdd: set<Word>
    var breakpointsToRemove: set<Word>

    function State(): Tracee
      reads this
    {
      Tracee(Overlay(mem, breakpointMap), breakpointsToAdd, breakpointsToRemove)
    }

    constructor (arch: Cfa.Arch, memoryRanges: seq<Range>, dwarfInfo: LineIndex.Info, text: seq<Byte>)
      ensures State() == Tracee(Overlay(text, map[]), {}, {})
      ensures this.arch == arch && this.memoryRanges == memoryRanges && this.dwarfInfo == dwarfInfo
    {
      this.arch, this.memoryRanges, this.dwarfInfo := arch, memoryRanges, dwarfInfo;
      mem := text;
      breakpointMap := map[];
      breakpointsToAdd, breakpointsToRemove := {}, {};
    }

    method InsertBreak(addr: Word)
      requires addr + 8 <= |mem|
      modifies this`mem, this`breakpointMap
      ensures State() == Apply(Trap(arch), old(State()), InsertNow(addr))
      ensures addr in old(breakpointMap) ==> mem == old(mem) && breakpointMap == old(breakpointMap)
      ensures addr !in old(breakpointMap) ==>
        && breakpointMap == old(breakpointMap)[addr := old(mem)[addr..addr + 8]]
        && |mem| == |old(mem)| && mem[..addr] == old(mem)[..addr] && mem[addr + 8..] == old(mem)[addr + 8..]
        && WordOf(mem[addr..addr + 8]) == if arch.X86_64? then 0xcc else 0xd420_0000
    {
      if addr !in breakpointMap {
        breakpointMap := breakpointMap[addr := Peek(mem, addr)];
        mem := Poke(mem, addr, Trap(arch));
        if Cfa.MinInstrBytes(arch) == 1 {
          var aligned := addr - addr % 4;
          assert Peek(mem, aligned)[addr % 4] == 0xcc;
        }
      }
    }

    method RemoveBreak(addr: Word)
      requires addr in breakpointMap && addr + 8 <= |mem|
      modifies this`mem, this`breakpointMap
      ensures State() == Apply(Trap(arch), old(State()), RemoveNow(addr))
      ensures breakpointMap == old(breakpointMap) - {addr}
      ensures mem == old(mem)[..addr] + old(breakpointMap)[addr] + old(mem)[addr + 8..]
    {
      mem := Poke(mem, addr, breakpointMap[addr]);
      breakpointMap := breakpointMap - {addr};
    }

    /** The address a request names: itself, or that of a line. */
    method Address(a: Word, line: bool) returns (addr: Option<Word>)
      requires dwarfInfo.Parsed()
      ensures !line ==> addr == Some(a)
      ensures line ==> match addr
        case None => !LineIndex.HasLineRow(dwarfInfo.rows, dwarfInfo.cuSrcName, a)
        case Some(p) => exists r :: LineIndex.IsLineRow(dwarfInfo.rows, dwarfInfo.cuSrcName, a, r) && r.pc == p
    {
      addr := Some(a);
      if line {
        var loc := dwarfInfo.ExactLocationByLine(a);
        addr := if loc.Some? then Some(loc.value.pc) else None;
      }
    }

    method QueueBreakpoint(a: Word, line: bool) returns (found: bool)
      requires dwarfInfo.Parsed()
      modifies this`breakpointsToAdd
      ensures !found ==> State() == old(State())
      ensures found && !line ==> InRanges(memoryRanges, a) && State() == Apply(Trap(arch), old(State()), Queue(a))
      ensures !line ==>
        (found <==> exists k :: 0 <= k < |memoryRanges| && memoryRanges[k].start <= a < memoryRanges[k].end)
      ensures found && !line ==> breakpointsToAdd == old(breakpointsToAdd) + {a}
      ensures !found && !line ==> !InRanges(memoryRanges, a)
      ensures !found && line ==>
        forall r :: LineIndex.IsLineRow(dwarfInfo.rows, dwarfInfo.cuSrcName, a, r) ==> !InRanges(memoryRanges, r.pc)
      ensures found && line ==> exists r ::
        && LineIndex.IsLineRow(dwarfInfo.rows, dwarfInfo.cuSrcName, a, r) && InRanges(memoryRanges, r.pc)
        && State() == Apply(Trap(arch), old(State()), Queue(r.pc))
      ensures found && line ==> a in LinesAt(dwarfInfo, breakpointMap.Keys + breakpointsToAdd)
    {
      var addr := Address(a, line);
      if addr.None? { return false; }
      InRangesMeans(memoryRanges, addr.value);
      found := false;
      var n := 0;
      assert memoryRanges[0..] == memoryRanges;
      while n < |memoryRanges|
        invariant n <= |memoryRanges|
        invariant InRanges(memoryRanges, addr.value) <==> found || InRanges(memoryRanges[n..], addr.value)
      {
        assert memoryRanges[n..][1..] == memoryRanges[n + 1..];
        var r := memoryRanges[n];
        if addr.value >= r.start && addr.value < r.end {
          found := true;
        }
        n := n + 1;
      }
      if found {
        breakpointsToAdd := breakpointsToAdd + {addr.value};
        if line {
          ghost var r :| LineIndex.IsLineRow(dwarfInfo.rows, dwarfInfo.cuSrcName, a, r) && r.pc == addr.value;
          LineIndex.LineRoundTrip(dwarfInfo.rows, dwarfInfo.cuSrcName, a, r);
          assert addr.value in breakpointMap.Keys + breakpointsToAdd;
        }
      }
    }

    method RemoveBreakpoint(a: Word, line: bool)
      requires dwarfInfo.Parsed()
      modifies this`breakpointsToAdd, this`breakpointsToRemove
      ensures !line ==> State() == Apply(Trap(arch), old(State()), Unqueue(a))
      ensures !line ==>
        breakpointsToAdd == old(breakpointsToAdd) - {a} && breakpointsToRemove == old(breakpointsToRemove) + {a}
      ensures line && !LineIndex.HasLineRow(dwarfInfo.rows, dwarfInfo.cuSrcName, a) ==> State() == old(State())
      ensures line && LineIndex.HasLineRow(dwarfInfo.rows, dwarfInfo.cuSrcName, a) ==> exists r ::
        && LineIndex.IsLineRow(dwarfInfo.rows, dwarfInfo.cuSrcName, a, r)
        && State() == Apply(Trap(arch), old(State()), Unqueue(r.pc))
    {
      var addr := Address(a, line);
      if addr.None? { return; }
      if addr.value in breakpointsToAdd {
        breakpointsToAdd := breakpointsToAdd - {addr.value};
      }
      breakpointsToRemove := breakpointsToRemove + {addr.value};
      assert breakpointsToAdd == old(breakpointsToAdd) - {addr.value};
    }

    /** The flush at the start of step. */
    method FlushBreakpoints()
      requires CanFlush(State())
      modifies this
      ensures State() == Flush(Trap(arch), old(State()))
      ensures breakpointMap.Keys == (old(breakpointMap.Keys) + old(breakpointsToAdd)) - old(breakpointsToRemove)
    {
      hide Insert, Remove, Withdraw, InsertAll, WithdrawAll, AllMapped, Sorted, Elements, Trap;
      FlushKeys(Trap(arch), State());
      ghost var t, o := Trap(arch), State().overlay;
      var left := breakpointsToAdd;
      while left != {}
        invariant breakpointsToAdd == old(breakpointsToAdd) && breakpointsToRemove == old(breakpointsToRemove)
        invariant State().overlay.Fits() && AllMapped(mem, Sorted(left))
        invariant InsertAll(t, State().overlay, Sorted(left)) == InsertAll(t, o, Sorted(breakpointsToAdd))
        decreases left
      {
        var it := First(left);
        InsertFirst(t, State().overlay, left, it);
        InsertBreak(it);
        left := left - {it};
      }
      InsertNone(t, State().overlay);
      ghost var p := State().overlay;
      left := breakpointsToRemove;
      while left != {}
        invariant breakpointsToAdd == old(breakpointsToAdd) && breakpointsToRemove == old(breakpointsToRemove)
        invariant State().overlay.Fits()
        invariant WithdrawAll(State().overlay, Sorted(left)) == WithdrawAll(p, Sorted(breakpointsToRemove))
        decreases left
      {
        var it := First(left);
        WithdrawFirst(State().overlay, left, it);
        if it in breakpointMap {
          RemoveBreak(it);
        }
        left := left - {it};
      }
      InsertNone(t, State().overlay);
      breakpointsToAdd, breakpointsToRemove := {}, {};
    }

    /** addBreakpoints: the addresses shown and the lines they lead back to. */
    method AddBreakpoints() returns (bkptList: seq<Word>, bkptLineList: set<Word>)
      requires dwarfInfo.Indexed()
      ensures bkptList == Sorted(breakpointMap.Keys) + Sorted(breakpointsToAdd)
      ensures bkptLineList == LinesAt(dwarfInfo, breakpointMap.Keys + breakpointsToAdd)
    {
      var installed := InOrder(breakpointMap.Keys);
      var pending := InOrder(breakpointsToAdd);
      bkptList := installed + pending;
      ElementsOfBoth(breakpointMap.Keys, breakpointsToAdd);
      hide LinesAt;
      bkptLineList := {};
      var n := 0;
      assert LinesAt(dwarfInfo, Elements(bkptList[..0])) == {} by { NoLinesAt(dwarfInfo, bkptList); }
      while n < |bkptList|
        invariant n <= |bkptList|
        invariant bkptLineList == LinesAt(dwarfInfo, Elements(bkptList[..n]))
      {
        var loc := dwarfInfo.ExactLocationByPC(bkptList[n]);
        LinesAtNext(dwarfInfo, bkptList, n);
        if loc.Some? {
          bkptLineList := bkptLineList + {loc.value.line};
        }
        n := n + 1;
      }
      assert bkptList[..n] == bkptList;
    }
  }

  /** The loop that copies addresses to the list. */
  method InOrder(keys: set<Word>) returns (list: seq<Word>)
    ensures list == Sorted(keys)
  {
    list := [];
    var left := keys;
    while left != {}
      invariant list + Sorted(left) == Sorted(keys)
      decreases left
    {
      var b := First(left);
      assert list + ([b] + Sorted(left - {b})) == list + [b] + Sorted(left - {b});
      list := list + [b];
      left := left - {b};
    }
  }

  lemma ElementsOfBoth(a: set<Word>, b: set<Word>)
    ensures Elements(Sorted(a) + Sorted(b)) == a + b
  {
  }

  /** The first element in iteration order. */
  method First(keys: set<Word>) returns (m: Word)
    requires keys != {}
    ensures LineIndex.IsLeast(keys, m)
    ensures Sorted(keys) == [m] + Sorted(keys - {m})
  {
    LineIndex.LeastExists(keys);
    m :| LineIndex.IsLeast(keys, m);
  }
}
