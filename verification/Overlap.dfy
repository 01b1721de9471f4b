/** Breakpoints whose 8-byte words overlap: when taking them out again restores memory. */
module Overlap {
  import opened Machine
  import opened Breakpoints
  import LineIndex
  import opened Cfa

  /** The last word of a list that covers a byte. */
  function LastCovering(order: seq<Word>, i: int): Option<Word> {
    if order == [] then None
    else
      match LastCovering(order[1..], i)
      case Some(a) => Some(a)
      case None => if InWord(i, order[0]) then Some(order[0]) else None
  }

  /** The first word of a list that covers a byte. */
  function FirstCovering(order: seq<Word>, i: int): Option<Word> {
    if order == [] then None
    else if InWord(i, order[0]) then Some(order[0])
    else FirstCovering(order[1..], i)
  }

  /** The words inserted before a. */
  function PrefixTo(order: seq<Word>, a: Word): seq<Word> {
    if order == [] || order[0] == a then [] else [order[0]] + PrefixTo(order[1..], a)
  }

  /** A byte of memory once the words of a list have been inserted. */
  function Shown(t: Bytes8, text: seq<Byte>, order: seq<Word>, i: nat): (b: Byte)
    requires i < |text|
  {
    LastCoveringMeans(order, i);
    match LastCovering(order, i)
    case None => text[i]
    case Some(a) => t[i - a]
  }

  lemma {:induction false} LastCoveringMeans(order: seq<Word>, i: int)
    ensures match LastCovering(order, i)
      case Some(a) => a in order && InWord(i, a)
      case None => forall a :: a in order ==> !InWord(i, a)
  {
    if order != [] {
      LastCoveringMeans(order[1..], i);
      assert forall a :: a in order <==> a == order[0] || a in order[1..];
    }
  }

  // ---------------------------------------------------------------------------------------
  // What insertion leaves in memory and in the saved words

  lemma {:induction false} FreshAvoids(order: seq<Word>, keys: set<Word>)
    requires Fresh(order, keys)
    ensures forall a :: a in order ==> a !in keys
  {
    if order != [] {
      FreshAvoids(order[1..], keys + {order[0]});
      assert forall a :: a in order <==> a == order[0] || a in order[1..];
    }
  }

  lemma {:induction false} InsertedByte(t: Bytes8, o: Overlay, order: seq<Word>, i: nat)
    requires o.Fits() && AllMapped(o.mem, order) && Fresh(order, o.saved.Keys) && i < |o.mem|
    ensures InsertAll(t, o, order).mem[i] == Shown(t, o.mem, order, i)
    decreases |order|
  {
    if order != [] {
      var p := Insert(t, o, order[0]);
      AllMappedEverywhere(o.mem, p.mem, order[1..]);
      assert p.saved.Keys == o.saved.Keys + {order[0]};
      InsertedByte(t, p, order[1..], i);
    }
  }

  lemma {:induction false} SavedStays(t: Bytes8, o: Overlay, order: seq<Word>, b: Word)
    requires o.Fits() && AllMapped(o.mem, order) && b in o.saved
    ensures b in InsertAll(t, o, order).saved && InsertAll(t, o, order).saved[b] == o.saved[b]
    decreases |order|
  {
    if order != [] {
      var p := Insert(t, o, order[0]);
      AllMappedEverywhere(o.mem, p.mem, order[1..]);
      SavedStays(t, p, order[1..], b);
    }
  }

  /** A saved word holds what the words inserted before it had left. */
  lemma {:induction false} SavedByte(t: Bytes8, o: Overlay, order: seq<Word>, b: Word, i: nat)
    requires o.Fits() && AllMapped(o.mem, order) && Fresh(order, o.saved.Keys) && i < |o.mem|
    requires b in order && InWord(i, b)
    ensures b in InsertAll(t, o, order).saved
    ensures InsertAll(t, o, order).saved[b][i - b] == Shown(t, o.mem, PrefixTo(order, b), i)
    decreases |order|
  {
    var a, rest := order[0], order[1..];
    var p := Insert(t, o, a);
    AllMappedEverywhere(o.mem, p.mem, rest);
    assert p.saved.Keys == o.saved.Keys + {a};
    if a == b {
      SavedStays(t, p, rest, b);
    } else {
      SavedByte(t, p, rest, b, i);
      var before := PrefixTo(rest, b);
      assert PrefixTo(order, b) == [a] + before && ([a] + before)[1..] == before;
    }
  }

  // ---------------------------------------------------------------------------------------
  // What withdrawal writes back

  lemma {:induction false} WithdrawnByte(o: Overlay, out: seq<Word>, keys: set<Word>, i: nat)
    requires o.Fits() && Fresh(out, keys) && (forall a :: a in out ==> a in o.saved) && i < |o.mem|
    ensures match LastCovering(out, i)
      case None => WithdrawAll(o, out).mem[i] == o.mem[i]
      case Some(a) => a in o.saved && InWord(i, a) && WithdrawAll(o, out).mem[i] == o.saved[a][i - a]
    decreases |out|
  {
    if out != [] {
      var rest := out[1..];
      FreshAvoids(rest, keys + {out[0]});
      LastCoveringMeans(rest, i);
      assert forall a :: a in rest ==> a in out;
      WithdrawnByte(Remove(o, out[0]), rest, keys + {out[0]}, i);
    }
  }

  lemma {:induction false} WithdrawnSaved(o: Overlay, out: seq<Word>)
    requires o.Fits()
    ensures WithdrawAll(o, out).saved == o.saved - Elements(out)
    decreases |out|
  {
    if out == [] {
      assert o.saved - {} == o.saved;
    } else {
      WithdrawnSaved(Withdraw(o, out[0]), out[1..]);
      assert Elements(out) == {out[0]} + Elements(out[1..]);
    }
  }

  // ---------------------------------------------------------------------------------------
  // Main results

  /** out takes out what order put in, each word once. */
  ghost predicate Undoes(out: seq<Word>, order: seq<Word>, keys: set<Word>) {
    Fresh(order, keys) && Fresh(out, keys) && Elements(out) == Elements(order)
  }

  /** A byte is restored: the word that covers it and is taken out last is the one put in
      first, or it saved another trap's byte that happens to be the byte of the text. */
  predicate Restored(t: Bytes8, text: seq<Byte>, order: seq<Word>, out: seq<Word>, i: nat)
    requires i < |text|
  {
    match LastCovering(out, i)
    case None => true
    case Some(a) =>
      FirstCovering(order, i) == Some(a) || Shown(t, text, PrefixTo(order, a), i) == text[i]
  }

  /** In front of the first word that covers a byte, none does. */
  lemma {:induction false} NothingBeforeFirst(order: seq<Word>, i: int, a: Word)
    requires a in order && InWord(i, a)
    ensures FirstCovering(order, i) == Some(a) <==> LastCovering(PrefixTo(order, a), i) == None
  {
    if order[0] != a {
      NothingBeforeFirst(order[1..], i, a);
      var before := PrefixTo(order[1..], a);
      assert ([order[0]] + before)[1..] == before;
    }
  }

  /** What stands at a byte in the end. */
  lemma ByteAfterUndoing(t: Bytes8, o: Overlay, order: seq<Word>, out: seq<Word>, i: nat)
    requires o.Fits() && AllMapped(o.mem, order) && Undoes(out, order, o.saved.Keys) && i < |o.mem|
    ensures var m := WithdrawAll(InsertAll(t, o, order), out).mem[i];
      && m == (match LastCovering(out, i)
               case None => o.mem[i]
               case Some(a) => Shown(t, o.mem, PrefixTo(order, a), i))
      && (m == o.mem[i] <==> Restored(t, o.mem, order, out, i))
  {
    hide InsertAll, WithdrawAll, Fresh;
    var p := InsertAll(t, o, order);
    InsertAllKeys(t, o, order);
    assert forall a :: a in out <==> a in Elements(order);
    WithdrawnByte(p, out, o.saved.Keys, i);
    InsertedByte(t, o, order, i);
    LastCoveringMeans(out, i);
    LastCoveringMeans(order, i);
    match LastCovering(out, i)
    case None =>
    case Some(a) =>
      SavedByte(t, o, order, a, i);
      NothingBeforeFirst(order, i, a);
  }

  /** However the words overlap and in whatever order they are taken out, everything is as
      before exactly when every byte is restored. */
  lemma UndoingRestoresExactly(t: Bytes8, o: Overlay, order: seq<Word>, out: seq<Word>)
    requires o.Fits() && AllMapped(o.mem, order) && Undoes(out, order, o.saved.Keys)
    ensures WithdrawAll(InsertAll(t, o, order), out) == o <==>
      forall i :: 0 <= i < |o.mem| ==> Restored(t, o.mem, order, out, i)
  {
    hide InsertAll, WithdrawAll, Restored, Fresh;
    var p := InsertAll(t, o, order);
    var r := WithdrawAll(p, out);
    SavedAfterUndoing(t, o, order, out);
    forall i: nat | i < |o.mem| ensures r.mem[i] == o.mem[i] <==> Restored(t, o.mem, order, out, i) {
      ByteAfterUndoing(t, o, order, out, i);
    }
    if forall i :: 0 <= i < |o.mem| ==> Restored(t, o.mem, order, out, i) {
      assert r.mem == o.mem;
    }
  }

  lemma SavedAfterUndoing(t: Bytes8, o: Overlay, order: seq<Word>, out: seq<Word>)
    requires o.Fits() && AllMapped(o.mem, order) && Undoes(out, order, o.saved.Keys)
    ensures WithdrawAll(InsertAll(t, o, order), out).saved == o.saved
  {
    hide InsertAll, WithdrawAll;
    var p := InsertAll(t, o, order);
    WithdrawnSaved(p, out);
    InsertAllKeys(t, o, order);
    FreshAvoids(order, o.saved.Keys);
    forall b | b in o.saved ensures b in p.saved && p.saved[b] == o.saved[b] {
      SavedStays(t, o, order, b);
    }
    assert p.saved - Elements(out) == o.saved;
  }

  // ---------------------------------------------------------------------------------------
  // The order of the flush

  predicate Increasing(order: seq<Word>) {
    order == [] || ((forall a :: a in order[1..] ==> order[0] < a) && Increasing(order[1..]))
  }

  lemma {:induction false} SortedIncreases(keys: set<Word>)
    ensures Increasing(Sorted(keys))
    decreases keys
  {
    if keys != {} {
      LineIndex.LeastExists(keys);
      var m :| LineIndex.IsLeast(keys, m) && Sorted(keys) == [m] + Sorted(keys - {m});
      var rest := Sorted(keys - {m});
      SortedIncreases(keys - {m});
      assert ([m] + rest)[1..] == rest;
      forall a | a in rest ensures m < a {
        assert a in Elements(rest);
      }
    }
  }

  lemma {:induction false} IncreasingIsFresh(order: seq<Word>, keys: set<Word>)
    requires Increasing(order) && forall a :: a in order ==> a !in keys
    ensures Fresh(order, keys)
  {
    if order != [] {
      IncreasingIsFresh(order[1..], keys + {order[0]});
    }
  }

  /** The greatest word of a set that covers a byte and lies below a bound. */
  ghost predicate IsTop(keys: set<Word>, i: int, bound: int, a: Word) {
    a in keys && InWord(i, a) && a < bound && forall c :: c in keys && InWord(i, c) && c < bound ==> c <= a
  }

  lemma {:induction false} LastIsTop(order: seq<Word>, i: int)
    requires Increasing(order)
    ensures match LastCovering(order, i)
      case Some(a) => IsTop(Elements(order), i, WORD_SIZE, a)
      case None => forall c :: c in order ==> !InWord(i, c)
  {
    if order != [] {
      LastIsTop(order[1..], i);
      LastCoveringMeans(order[1..], i);
      assert forall c :: c in order <==> c == order[0] || c in order[1..];
    }
  }

  lemma {:induction false} PrefixIsBelow(order: seq<Word>, a: Word)
    requires Increasing(order) && a in order
    ensures Increasing(PrefixTo(order, a)) && forall c :: c in PrefixTo(order, a) <==> c in order && c < a
  {
    assert forall c :: c in order <==> c == order[0] || c in order[1..];
    if order[0] != a {
      PrefixIsBelow(order[1..], a);
      var before := PrefixTo(order[1..], a);
      assert ([order[0]] + before)[1..] == before;
      assert forall c :: c in [order[0]] + before <==> c == order[0] || c in before;
    }
  }

  /** Where the two highest words over a byte meet, the lower one's trap has the text's byte. */
  ghost predicate TrapsAgree(t: Bytes8, text: seq<Byte>, keys: set<Word>) {
    forall i, a: Word, b: Word ::
      0 <= i < |text| && IsTop(keys, i, WORD_SIZE, a) && IsTop(keys, i, a, b) ==> t[i - b] == text[i]
  }

  lemma RestoredInOrder(t: Bytes8, text: seq<Byte>, keys: set<Word>, i: nat)
    requires i < |text|
    ensures Restored(t, text, Sorted(keys), Sorted(keys), i) <==>
      forall a: Word, b: Word :: IsTop(keys, i, WORD_SIZE, a) && IsTop(keys, i, a, b) ==> t[i - b] == text[i]
  {
    hide Sorted;
    var order := Sorted(keys);
    SortedIncreases(keys);
    LastIsTop(order, i);
    assert forall c :: c in order <==> c in Elements(order);
    if LastCovering(order, i).Some? {
      var a := LastCovering(order, i).value;
      var before := PrefixTo(order, a);
      PrefixIsBelow(order, a);
      LastIsTop(before, i);
      LastCoveringMeans(before, i);
      NothingBeforeFirst(order, i, a);
      if LastCovering(before, i).Some? {
        var b := LastCovering(before, i).value;
        assert IsTop(keys, i, a, b);
      }
    }
  }

  /** Breakpoints put in by one flush and taken out by another come out in the order in which
      they went in.  That leaves everything as before exactly when the traps agree with the text
      wherever words overlap. */
  lemma FlushedTogether(t: Bytes8, o: Overlay, keys: set<Word>)
    requires o.Fits() && AllMapped(o.mem, Sorted(keys)) && keys !! o.saved.Keys
    ensures var installed := Flush(t, Tracee(o, keys, {})).overlay;
      && installed == InsertAll(t, o, Sorted(keys))
      && (Flush(t, Tracee(installed, {}, keys)).overlay == o <==> TrapsAgree(t, o.mem, keys))
  {
    hide Sorted, Restored;
    var order := Sorted(keys);
    InsertNone(t, InsertAll(t, o, order));
    SortedIncreases(keys);
    assert forall c :: c in order <==> c in Elements(order);
    IncreasingIsFresh(order, o.saved.Keys);
    UndoingRestoresExactly(t, o, order, order);
    forall i: nat | i < |o.mem|
      ensures Restored(t, o.mem, order, order, i) <==>
        forall a: Word, b: Word :: IsTop(keys, i, WORD_SIZE, a) && IsTop(keys, i, a, b) ==> t[i - b] == o.mem[i]
    {
      RestoredInOrder(t, o.mem, keys, i);
    }
  }

  lemma TopsOfTwo(a: Word, b: Word, i: int)
    requires a < b < a + 8
    ensures forall x: Word, y: Word :: IsTop({a, b}, i, WORD_SIZE, x) && IsTop({a, b}, i, x, y) ==>
      x == b && y == a && b <= i < a + 8
    ensures b <= i < a + 8 ==> IsTop({a, b}, i, WORD_SIZE, b) && IsTop({a, b}, i, b, a)
  {
  }

  lemma TrapsOfTwo(text: seq<Byte>, a: Word, b: Word)
    requires a < b < a + 8 && Mapped(text, b)
    ensures TrapsAgree(Trap(X86_64), text, {a, b}) <==> forall i :: b <= i < a + 8 ==> text[i] == 0
  {
    hide IsTop;
    var t := Trap(X86_64);
    if TrapsAgree(t, text, {a, b}) {
      forall i | b <= i < a + 8 ensures text[i] == 0 {
        TopsOfTwo(a, b, i);
        assert t[i - a] == 0;
      }
    }
    if forall i :: b <= i < a + 8 ==> text[i] == 0 {
      forall i, x: Word, y: Word | 0 <= i < |text| && IsTop({a, b}, i, WORD_SIZE, x) && IsTop({a, b}, i, x, y)
        ensures InWord(i, y) && t[i - y] == text[i]
      {
        TopsOfTwo(a, b, i);
        assert t[i - a] == 0;
      }
    }
  }

  /** On x86-64 two breakpoints closer than a word, queued together and later removed together,
      restore the text exactly when it is zero wherever both words lie. */
  lemma CloseBreakpointsNeedZeros(o: Overlay, a: Word, b: Word)
    requires o.Fits() && a < b < a + 8 && Mapped(o.mem, b)
    requires a !in o.saved && b !in o.saved
    ensures var keys := {a, b};
      && CanFlush(Tracee(o, keys, {}))
      && (Flush(Trap(X86_64), Tracee(Flush(Trap(X86_64), Tracee(o, keys, {})).overlay, {}, keys)).overlay == o
          <==> forall i :: b <= i < a + 8 ==> o.mem[i] == 0)
  {
    hide Sorted, Flush, TrapsAgree, Trap;
    MappedInOrder(o.mem, {a, b});
    FlushedTogether(Trap(X86_64), o, {a, b});
    TrapsOfTwo(o.mem, a, b);
  }

  // ---------------------------------------------------------------------------------------
  // Every run

  /** A word that was really put in or taken out. */
  datatype Poke = Put(addr: Word) | Take(addr: Word)

  /** The part of a history, latest first, that lies before the latest insertion of a. */
  function Before(hist: seq<Poke>, a: Word): (h: seq<Poke>)
    ensures |h| <= |hist|
  {
    if hist == [] then [] else if hist[0] == Put(a) then hist[1..] else Before(hist[1..], a)
  }

  /** The byte that a history leaves: the trap's where the latest word over the byte was put in;
      where it was taken out, what stood there before it had been put in. */
  function ByteAfter(t: Bytes8, text: seq<Byte>, hist: seq<Poke>, i: nat): Byte
    requires i < |text|
    decreases |hist|
  {
    if hist == [] then text[i]
    else if !InWord(i, hist[0].addr) then ByteAfter(t, text, hist[1..], i)
    else
      match hist[0]
      case Put(a) => t[i - a]
      case Take(a) => ByteAfter(t, text, Before(hist[1..], a), i)
  }

  /** Memory and the saved words are what the history leaves. */
  ghost predicate Follows(t: Bytes8, text: seq<Byte>, hist: seq<Poke>, o: Overlay) {
    && |o.mem| == |text| && o.Fits()
    && (forall i :: 0 <= i < |text| ==> o.mem[i] == ByteAfter(t, text, hist, i))
    && (forall a, i :: a in o.saved && InWord(i, a) ==> o.saved[a][i - a] == ByteAfter(t, text, Before(hist, a), i))
  }

  lemma PutFollows(t: Bytes8, text: seq<Byte>, hist: seq<Poke>, o: Overlay, a: Word)
    requires Follows(t, text, hist, o) && a !in o.saved && Mapped(o.mem, a)
    ensures Follows(t, text, [Put(a)] + hist, Insert(t, o, a))
  {
    assert ([Put(a)] + hist)[1..] == hist;
  }

  lemma TakeFollows(t: Bytes8, text: seq<Byte>, hist: seq<Poke>, o: Overlay, a: Word)
    requires Follows(t, text, hist, o) && a in o.saved
    ensures Follows(t, text, [Take(a)] + hist, Remove(o, a))
  {
    assert ([Take(a)] + hist)[1..] == hist;
  }

  /** What the insertions of a list add to the history. */
  function Puts(t: Bytes8, o: Overlay, order: seq<Word>): seq<Poke>
    requires o.Fits() && AllMapped(o.mem, order)
    decreases |order|
  {
    if order == [] then []
    else
      AllMappedEverywhere(o.mem, Insert(t, o, order[0]).mem, order[1..]);
      Puts(t, Insert(t, o, order[0]), order[1..]) + if order[0] in o.saved then [] else [Put(order[0])]
  }

  function Takes(o: Overlay, order: seq<Word>): seq<Poke>
    requires o.Fits()
    decreases |order|
  {
    if order == [] then []
    else Takes(Withdraw(o, order[0]), order[1..]) + if order[0] in o.saved then [Take(order[0])] else []
  }

  lemma {:induction false} PutsFollow(t: Bytes8, text: seq<Byte>, hist: seq<Poke>, o: Overlay, order: seq<Word>)
    requires Follows(t, text, hist, o) && AllMapped(o.mem, order)
    ensures Follows(t, text, Puts(t, o, order) + hist, InsertAll(t, o, order))
    decreases |order|
  {
    hide Follows;
    FollowsFits(t, text, hist, o);
    if order == [] {
      assert [] + hist == hist;
    } else {
      var a, p := order[0], Insert(t, o, order[0]);
      AllMappedEverywhere(o.mem, p.mem, order[1..]);
      var one := if a in o.saved then [] else [Put(a)];
      if a in o.saved {
        assert one + hist == hist;
      } else {
        PutFollows(t, text, hist, o, a);
      }
      PutsFollow(t, text, one + hist, p, order[1..]);
      assert Puts(t, p, order[1..]) + (one + hist) == Puts(t, p, order[1..]) + one + hist;
    }
  }

  lemma FollowsFits(t: Bytes8, text: seq<Byte>, hist: seq<Poke>, o: Overlay)
    requires Follows(t, text, hist, o)
    ensures o.Fits()
  {
  }

  lemma {:induction false} TakesFollow(t: Bytes8, text: seq<Byte>, hist: seq<Poke>, o: Overlay, order: seq<Word>)
    requires Follows(t, text, hist, o) && o.Fits()
    ensures Follows(t, text, Takes(o, order) + hist, WithdrawAll(o, order))
    decreases |order|
  {
    hide Follows;
    if order == [] {
      assert [] + hist == hist;
    } else {
      var a, p := order[0], Withdraw(o, order[0]);
      var one := if a in o.saved then [Take(a)] else [];
      if a in o.saved {
        TakeFollows(t, text, hist, o, a);
      } else {
        assert one + hist == hist;
      }
      TakesFollow(t, text, one + hist, p, order[1..]);
      assert Takes(p, order[1..]) + (one + hist) == Takes(p, order[1..]) + one + hist;
    }
  }

  /** What a change adds to the history. */
  ghost function PokesOf(t: Bytes8, s: Tracee, c: Change): seq<Poke>
    requires CanApply(s, c)
  {
    match c
    case InsertNow(a) => if a in s.overlay.saved then [] else [Put(a)]
    case RemoveNow(a) => [Take(a)]
    case FlushAll =>
      Takes(InsertAll(t, s.overlay, Sorted(s.toAdd)), Sorted(s.toRemove)) + Puts(t, s.overlay, Sorted(s.toAdd))
    case _ => []
  }

  lemma ApplyFollows(t: Bytes8, text: seq<Byte>, hist: seq<Poke>, s: Tracee, c: Change)
    requires Follows(t, text, hist, s.overlay) && CanApply(s, c)
    ensures Follows(t, text, PokesOf(t, s, c) + hist, Apply(t, s, c).overlay)
  {
    hide Follows, Insert, Remove, InsertAll, WithdrawAll, Sorted, Puts, Takes;
    assert [] + hist == hist;
    match c
    case InsertNow(a) =>
      if a in s.overlay.saved {
        InsertAgain(t, s.overlay, a);
      } else {
        PutFollows(t, text, hist, s.overlay, a);
      }
    case RemoveNow(a) => TakeFollows(t, text, hist, s.overlay, a);
    case FlushAll =>
      var puts := Puts(t, s.overlay, Sorted(s.toAdd));
      var p := InsertAll(t, s.overlay, Sorted(s.toAdd));
      var takes := Takes(p, Sorted(s.toRemove));
      PutsFollow(t, text, hist, s.overlay, Sorted(s.toAdd));
      TakesFollow(t, text, puts + hist, p, Sorted(s.toRemove));
      assert takes + (puts + hist) == takes + puts + hist;
    case _ =>
  }

  lemma InsertAgain(t: Bytes8, o: Overlay, a: Word)
    requires a in o.saved && Mapped(o.mem, a)
    ensures Insert(t, o, a) == o
  {
  }

  /** The history of a run up to its state i. */
  ghost function History(t: Bytes8, tr: seq<Tracee>, cs: seq<Change>, i: nat): seq<Poke>
    requires i <= |cs| < |tr| && forall k :: 0 <= k < i ==> CanApply(tr[k], cs[k])
  {
    if i == 0 then [] else PokesOf(t, tr[i - 1], cs[i - 1]) + History(t, tr, cs, i - 1)
  }

  /** However words overlap, in every reachable state each byte of memory and of the saved words is
      the one its history leaves. */
  lemma {:induction false} EveryRunFollowsHistory(t: Bytes8, text: seq<Byte>, tr: seq<Tracee>, cs: seq<Change>, i: nat)
    requires IsRun(t, text, tr, cs) && i < |tr|
    ensures Follows(t, text, History(t, tr, cs, i), tr[i].overlay)
  {
    hide Follows, PokesOf, CanApply, Apply;
    if i == 0 {
      StartFollows(t, text);
    } else {
      EveryRunFollowsHistory(t, text, tr, cs, i - 1);
      assert CanApply(tr[i - 1], cs[i - 1]) && tr[i] == Apply(t, tr[i - 1], cs[i - 1]);
      ApplyFollows(t, text, History(t, tr, cs, i - 1), tr[i - 1], cs[i - 1]);
    }
  }

  lemma StartFollows(t: Bytes8, text: seq<Byte>)
    ensures Follows(t, text, [], Overlay(text, map[]))
  {
  }
}
