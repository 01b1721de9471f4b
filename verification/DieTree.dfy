/** parseInfo: the flat pre-order stream of debugging information entries of .debug_info is
    rebuilt into a tree (sections 2.3 and 7.5.2 of DWARF version 4). */
module DieTree {

  /** What the abbreviation table says of a code: the tag, and whether children follow. */
  datatype Abbrev = Abbrev(tag: nat, hasChildren: bool)

  type AbbrevTable = map<nat, Abbrev>

  /** An entry of the stream: its offset and abbreviation code; code 0 is a null entry. */
  datatype Item = Item(offset: nat, code: nat)

  /** A DIE under construction; its parent and children are named by their offsets. */
  datatype Node = Node(parent: nat, tag: nat, children: seq<nat>)

  /** The root DIE that parseInfo starts from has no parent and stands outside the stream. */
  const ROOT: nat := 0

  const NULL_TAG: nat := 0

  datatype Unit = Unit(abbrevs: AbbrevTable, items: seq<Item>)

  datatype State = State(dies: map<nat, Node>, current: nat)
  {
    predicate Valid() {
      ROOT in dies && current in dies && forall o :: o in dies && o != ROOT ==> dies[o].parent in dies
    }
  }

  const START := State(map[ROOT := Node(ROOT, NULL_TAG, [])], ROOT)

  // ---------------------------------------------------------------------------------------
  // What one item does

  /** A null entry closes the current DIE; any other becomes its next child.  None stands for
      a code that the table does not have. */
  function ParseItem(s: State, abbrevs: AbbrevTable, item: Item): (r: (State, bool))
    requires s.Valid()
    ensures r.0.Valid()
  {
    if item.code == 0 then
      (if s.current != ROOT then s.(current := s.dies[s.current].parent) else s, true)
    else if item.code !in abbrevs then (s, false)
    else
      var a := abbrevs[item.code];
      var parent := s.dies[s.current];
      var grown := s.dies[s.current := parent.(children := parent.children + [item.offset])];
      var dies := if item.offset in s.dies then grown else grown[item.offset := Node(s.current, a.tag, [])];
      (State(dies, if a.hasChildren then item.offset else s.current), true)
  }

  function ParseItems(s: State, abbrevs: AbbrevTable, items: seq<Item>): (r: (State, bool))
    requires s.Valid()
    ensures r.0.Valid()
    decreases |items|
  {
    if items == [] then (s, true)
    else
      var (t, ok) := ParseItem(s, abbrevs, items[0]);
      if ok then ParseItems(t, abbrevs, items[1..]) else (t, false)
  }

  function ParseUnits(s: State, units: seq<Unit>): (r: (State, bool))
    requires s.Valid()
    ensures r.0.Valid()
    decreases |units|
  {
    if units == [] then (s, true)
    else
      var (t, ok) := ParseItems(s, units[0].abbrevs, units[0].items);
      if ok then ParseUnits(t, units[1..]) else (t, false)
  }

  /** Parsing fails exactly on an entry whose code is not null and not in its unit's table. */
  lemma {:induction false} ParsesExactly(s: State, units: seq<Unit>)
    requires s.Valid()
    ensures ParseUnits(s, units).1 <==>
      forall u, i :: 0 <= u < |units| && 0 <= i < |units[u].items| ==>
        units[u].items[i].code == 0 || units[u].items[i].code in units[u].abbrevs
    decreases |units|
  {
    if units != [] {
      hide ParseItems;
      UnitParsesExactly(s, units[0].abbrevs, units[0].items);
      var (t, ok) := ParseItems(s, units[0].abbrevs, units[0].items);
      if ok {
        ParsesExactly(t, units[1..]);
        forall u | 0 < u < |units| ensures units[u] == units[1..][u - 1] {
        }
      }
    }
  }

  lemma {:induction false} UnitParsesExactly(s: State, abbrevs: AbbrevTable, items: seq<Item>)
    requires s.Valid()
    ensures ParseItems(s, abbrevs, items).1 <==>
      forall i :: 0 <= i < |items| ==> items[i].code == 0 || items[i].code in abbrevs
    decreases |items|
  {
    if items != [] {
      var (t, ok) := ParseItem(s, abbrevs, items[0]);
      if ok {
        UnitParsesExactly(t, abbrevs, items[1..]);
        forall i | 0 < i < |items| ensures items[i] == items[1..][i - 1] {
        }
      }
    }
  }

  // ---------------------------------------------------------------------------------------
  // The object

  class InfoParser {
    var dies: map<nat, Node>
    var currentDie: nat

    function Current(): State
      reads this
    {
      State(dies, currentDie)
    }

    constructor ()
      ensures Current() == START
    {
      dies := map[ROOT := Node(ROOT, NULL_TAG, [])];
      currentDie := ROOT;
    }

    /** The loops of parseInfo over units and their entries; false when an abbreviation is missing. */
    method ParseInfo(units: seq<Unit>) returns (ok: bool)
      requires Current().Valid()
      modifies this
      ensures (Current(), ok) == ParseUnits(old(Current()), units)
    {
      var u := 0;
      assert units[0..] == units;
      while u < |units|
        invariant u <= |units| && Current().Valid()
        invariant ParseUnits(Current(), units[u..]) == ParseUnits(old(Current()), units)
      {
        assert units[u..][1..] == units[u + 1..];
        ok := ParseUnit(units[u]);
        if !ok { return; }
        u := u + 1;
      }
      ok := true;
    }

    method ParseUnit(unit: Unit) returns (ok: bool)
      requires Current().Valid()
      modifies this
      ensures (Current(), ok) == ParseItems(old(Current()), unit.abbrevs, unit.items)
    {
      hide ParseItem;
      var n := 0;
      assert unit.items[0..] == unit.items;
      while n < |unit.items|
        invariant n <= |unit.items| && Current().Valid()
        invariant ParseItems(Current(), unit.abbrevs, unit.items[n..])
          == ParseItems(old(Current()), unit.abbrevs, unit.items)
      {
        assert unit.items[n..][1..] == unit.items[n + 1..];
        ok := ParseEntry(unit.items[n], unit.abbrevs);
        if !ok { return; }
        n := n + 1;
      }
      ok := true;
    }

    method ParseEntry(item: Item, abbrevs: AbbrevTable) returns (ok: bool)
      requires Current().Valid()
      modifies this
      ensures (Current(), ok) == ParseItem(old(Current()), abbrevs, item)
      ensures ok <==> item.code == 0 || item.code in abbrevs
      ensures item.code == 0 || !ok ==> dies == old(dies)
      ensures item.code != 0 && ok ==>
        && dies.Keys == old(dies).Keys + {item.offset}
        && (item.offset !in old(dies) ==> dies[item.offset] == Node(old(currentDie), abbrevs[item.code].tag, []))
        && (forall o :: o in old(dies) ==> dies[o].parent == old(dies)[o].parent && dies[o].tag == old(dies)[o].tag)
        && currentDie == if abbrevs[item.code].hasChildren then item.offset else old(currentDie)
    {
      ok := true;
      if item.code == 0 {
        if currentDie != ROOT {
          currentDie := dies[currentDie].parent;
        }
      } else if item.code !in abbrevs {
        ok := false;
      } else {
        var entry := abbrevs[item.code];
        var die := Node(currentDie, entry.tag, []);
        if item.offset !in dies {
          dies := dies[item.offset := die];
        }
        var parent := dies[currentDie];
        dies := dies[currentDie := parent.(children := parent.children + [item.offset])];
        assert dies == ParseItem(old(Current()), abbrevs, item).0.dies;
        if entry.hasChildren {
          currentDie := item.offset;
        }
      }
    }
  }

  // ---------------------------------------------------------------------------------------
  // Forests and their serialisation

  datatype Die = Die(offset: nat, code: nat, children: seq<Die>)

  /** Every DIE's code is in the table, and only DIEs whose abbreviation says so have children. */
  predicate Described(f: seq<Die>, abbrevs: AbbrevTable) {
    f == [] ||
    (f[0].code != 0 && f[0].code in abbrevs && (abbrevs[f[0].code].hasChildren || f[0].children == []) &&
     Described(f[0].children, abbrevs) && Described(f[1..], abbrevs))
  }

  function OffsetSet(f: seq<Die>): set<nat> {
    if f == [] then {} else {f[0].offset} + OffsetSet(f[0].children) + OffsetSet(f[1..])
  }

  /** The offsets are all different and not used yet. */
  predicate Fresh(f: seq<Die>, used: set<nat>) {
    f == [] ||
    (f[0].offset !in used && Fresh(f[0].children, used + {f[0].offset}) &&
     Fresh(f[1..], used + {f[0].offset} + OffsetSet(f[0].children)))
  }

  /** Section 2.3: a DIE, then its children closed by a null entry if its abbreviation has any. */
  function Serialise(f: seq<Die>, abbrevs: AbbrevTable): seq<Item>
    requires Described(f, abbrevs)
  {
    if f == [] then []
    else
      [Item(f[0].offset, f[0].code)] +
      (if abbrevs[f[0].code].hasChildren then Serialise(f[0].children, abbrevs) + [Item(f[0].offset, 0)] else []) +
      Serialise(f[1..], abbrevs)
  }

  function Offsets(f: seq<Die>): seq<nat> {
    if f == [] then [] else [f[0].offset] + Offsets(f[1..])
  }

  /** The nodes that stand for a forest under a given parent. */
  function Nodes(f: seq<Die>, parent: nat, abbrevs: AbbrevTable): map<nat, Node>
    requires Described(f, abbrevs)
  {
    if f == [] then map[]
    else
      Nodes(f[1..], parent, abbrevs) + Nodes(f[0].children, f[0].offset, abbrevs) +
      map[f[0].offset := Node(parent, abbrevs[f[0].code].tag, Offsets(f[0].children))]
  }

  /** dies with a forest added below one of them. */
  function Grown(dies: map<nat, Node>, at: nat, f: seq<Die>, abbrevs: AbbrevTable): map<nat, Node>
    requires at in dies && Described(f, abbrevs)
  {
    dies[at := dies[at].(children := dies[at].children + Offsets(f))] + Nodes(f, at, abbrevs)
  }

  lemma {:induction false} NodesKeys(f: seq<Die>, parent: nat, abbrevs: AbbrevTable)
    requires Described(f, abbrevs)
    ensures Nodes(f, parent, abbrevs).Keys == OffsetSet(f)
  {
    if f != [] {
      NodesKeys(f[1..], parent, abbrevs);
      NodesKeys(f[0].children, f[0].offset, abbrevs);
    }
  }

  lemma {:induction false} FreshAvoids(f: seq<Die>, used: set<nat>)
    requires Fresh(f, used)
    ensures OffsetSet(f) !! used
  {
    if f != [] {
      FreshAvoids(f[0].children, used + {f[0].offset});
      FreshAvoids(f[1..], used + {f[0].offset} + OffsetSet(f[0].children));
    }
  }

  lemma {:induction false} ParseConcat(s: State, abbrevs: AbbrevTable, a: seq<Item>, b: seq<Item>)
    requires s.Valid() && ParseItems(s, abbrevs, a).1
    ensures ParseItems(s, abbrevs, a + b) == ParseItems(ParseItems(s, abbrevs, a).0, abbrevs, b)
    decreases |a|
  {
    if a == [] {
      assert a + b == b;
    } else {
      assert (a + b)[1..] == a[1..] + b;
      ParseConcat(ParseItem(s, abbrevs, a[0]).0, abbrevs, a[1..], b);
    }
  }

  // ---------------------------------------------------------------------------------------
  // Main results

  /** dies once the first DIE of a forest has been entered. */
  function Entered(dies: map<nat, Node>, at: nat, d: Die, abbrevs: AbbrevTable): map<nat, Node>
    requires at in dies && d.code in abbrevs
  {
    dies[at := dies[at].(children := dies[at].children + [d.offset])]
        [d.offset := Node(at, abbrevs[d.code].tag, [])]
  }

  /** Adding a node, its children K and its later siblings R in turn is adding them all. */
  lemma AddInSteps(dies: map<nat, Node>, at: nat, off: nat, tag: nat, ks: seq<nat>, rs: seq<nat>,
                   K: map<nat, Node>, R: map<nat, Node>)
    requires at in dies && off !in dies && off !in K && off !in R
    requires dies.Keys !! K.Keys && dies.Keys !! R.Keys && K.Keys !! R.Keys
    ensures var cs := dies[at].children;
      var d0 := dies[at := dies[at].(children := cs + [off])][off := Node(at, tag, [])];
      var d1 := d0[off := Node(at, tag, ks)] + K;
      && at in d1 && d1[at].children == cs + [off]
      && d1[at := d1[at].(children := cs + [off] + rs)] + R
        == dies[at := dies[at].(children := cs + ([off] + rs))] + (R + K + map[off := Node(at, tag, ks)])
  {
    var cs := dies[at].children;
    assert cs + [off] + rs == cs + ([off] + rs);
    assert at !in K && at !in R && at != off;
  }

  lemma NodesStep(f: seq<Die>, parent: nat, abbrevs: AbbrevTable)
    requires f != [] && Described(f, abbrevs)
    ensures Nodes(f, parent, abbrevs) ==
      Nodes(f[1..], parent, abbrevs) + Nodes(f[0].children, f[0].offset, abbrevs) +
      map[f[0].offset := Node(parent, abbrevs[f[0].code].tag, Offsets(f[0].children))]
    ensures Offsets(f) == [f[0].offset] + Offsets(f[1..])
  {
  }

  lemma GrownInSteps(dies: map<nat, Node>, at: nat, f: seq<Die>, abbrevs: AbbrevTable)
    requires at in dies && f != [] && Described(f, abbrevs) && Fresh(f, dies.Keys)
    ensures var d := f[0];
      var dies1 := Grown(Entered(dies, at, d, abbrevs), d.offset, d.children, abbrevs);
      && dies1.Keys == dies.Keys + {d.offset} + OffsetSet(d.children)
      && dies1[d.offset].parent == at
      && Grown(dies1, at, f[1..], abbrevs) == Grown(dies, at, f, abbrevs)
  {
    hide Fresh, OffsetSet, Described, Nodes, Serialise, Body, Offsets;
    Heads(f, abbrevs, dies.Keys);
    NodesStep(f, at, abbrevs);
    var d, rest := f[0], f[1..];
    var kids := d.children;
    var K, R := Nodes(kids, d.offset, abbrevs), Nodes(rest, at, abbrevs);
    NodesKeys(kids, d.offset, abbrevs);
    NodesKeys(rest, at, abbrevs);
    FreshAvoids(kids, dies.Keys + {d.offset});
    FreshAvoids(rest, dies.Keys + {d.offset} + OffsetSet(kids));
    var dies0 := Entered(dies, at, d, abbrevs);
    var dies1 := Grown(dies0, d.offset, kids, abbrevs);
    var tag := abbrevs[d.code].tag;
    assert [] + Offsets(kids) == Offsets(kids);
    assert dies1 == dies0[d.offset := Node(at, tag, Offsets(kids))] + K;
    AddInSteps(dies, at, d.offset, tag, Offsets(kids), Offsets(rest), K, R);
  }

  lemma CloseDie(dies: map<nat, Node>, abbrevs: AbbrevTable, die: nat, tail: seq<Item>)
    requires State(dies, die).Valid() && die != ROOT
    ensures State(dies, dies[die].parent).Valid()
    ensures ParseItems(State(dies, die), abbrevs, [Item(die, 0)] + tail)
      == ParseItems(State(dies, dies[die].parent), abbrevs, tail)
  {
  }

  /** The items of a DIE after its own entry: its children and the null entry that closes them. */
  function Body(d: Die, abbrevs: AbbrevTable): seq<Item>
    requires d.code in abbrevs && Described(d.children, abbrevs)
  {
    if abbrevs[d.code].hasChildren then Serialise(d.children, abbrevs) + [Item(d.offset, 0)] else []
  }

  lemma ParseBody(t: State, abbrevs: AbbrevTable, d: Die, at: nat, tail: seq<Item>)
    requires t.Valid() && d.code in abbrevs && Described(d.children, abbrevs)
    requires d.offset in t.dies && d.offset != ROOT && t.dies[d.offset].parent == at
    requires d.offset !in OffsetSet(d.children)
    requires t.current == if abbrevs[d.code].hasChildren then d.offset else at
    requires !abbrevs[d.code].hasChildren ==> d.children == []
    requires abbrevs[d.code].hasChildren ==>
      ParseItems(t, abbrevs, Serialise(d.children, abbrevs))
        == (State(Grown(t.dies, d.offset, d.children, abbrevs), d.offset), true)
    ensures State(Grown(t.dies, d.offset, d.children, abbrevs), at).Valid()
    ensures ParseItems(t, abbrevs, Body(d, abbrevs) + tail)
      == ParseItems(State(Grown(t.dies, d.offset, d.children, abbrevs), at), abbrevs, tail)
  {
    hide ParseItem, ParseItems, Grown, Nodes, OffsetSet, Described, Serialise;
    GrownKeepsParent(t.dies, d, abbrevs);
    var dies1 := Grown(t.dies, d.offset, d.children, abbrevs);
    if abbrevs[d.code].hasChildren {
      var kids, close := Serialise(d.children, abbrevs), [Item(d.offset, 0)];
      CloseDie(dies1, abbrevs, d.offset, tail);
      ParseConcat(t, abbrevs, kids, close + tail);
      assert Body(d, abbrevs) + tail == kids + (close + tail);
    } else {
      assert [] + tail == tail;
    }
  }

  lemma GrownKeepsParent(dies: map<nat, Node>, d: Die, abbrevs: AbbrevTable)
    requires d.offset in dies && Described(d.children, abbrevs) && d.offset !in OffsetSet(d.children)
    ensures var dies1 := Grown(dies, d.offset, d.children, abbrevs);
      d.offset in dies1 && dies1[d.offset].parent == dies[d.offset].parent
    ensures d.children == [] ==> Grown(dies, d.offset, d.children, abbrevs) == dies
  {
    NodesKeys(d.children, d.offset, abbrevs);
    if d.children == [] {
      assert dies[d.offset].children + [] == dies[d.offset].children;
    }
  }

  lemma EnterDie(s: State, abbrevs: AbbrevTable, d: Die)
    requires s.Valid() && d.code != 0 && d.code in abbrevs && d.offset !in s.dies
    ensures var (t, ok) := ParseItem(s, abbrevs, Item(d.offset, d.code));
      && ok && t.dies == Entered(s.dies, s.current, d, abbrevs) && t.dies.Keys == s.dies.Keys + {d.offset}
      && t.dies[d.offset].parent == s.current
      && t.current == if abbrevs[d.code].hasChildren then d.offset else s.current
  {
  }

  lemma Heads(f: seq<Die>, abbrevs: AbbrevTable, used: set<nat>)
    requires f != [] && Described(f, abbrevs) && Fresh(f, used)
    ensures var d := f[0];
      && d.code != 0 && d.code in abbrevs && Described(d.children, abbrevs) && Described(f[1..], abbrevs)
      && (!abbrevs[d.code].hasChildren ==> d.children == [])
      && d.offset !in used && d.offset !in OffsetSet(d.children)
      && OffsetSet(d.children) !! used + {d.offset}
      && Fresh(d.children, used + {d.offset}) && Fresh(f[1..], used + {d.offset} + OffsetSet(d.children))
      && Serialise(f, abbrevs) == [Item(d.offset, d.code)] + (Body(d, abbrevs) + Serialise(f[1..], abbrevs))
  {
    var d := f[0];
    FreshAvoids(d.children, used + {d.offset});
    Associates([Item(d.offset, d.code)], Body(d, abbrevs), Serialise(f[1..], abbrevs));
  }

  lemma Associates(a: seq<Item>, b: seq<Item>, c: seq<Item>)
    ensures a + b + c == a + (b + c)
  {
  }

  lemma ParseFirst(s: State, abbrevs: AbbrevTable, item: Item, rest: seq<Item>)
    requires s.Valid() && ParseItem(s, abbrevs, item).1
    ensures ParseItems(s, abbrevs, [item] + rest) == ParseItems(ParseItem(s, abbrevs, item).0, abbrevs, rest)
  {
  }

  ghost predicate ParsesForest(s: State, abbrevs: AbbrevTable, f: seq<Die>) {
    && s.Valid() && Described(f, abbrevs)
    && ParseItems(s, abbrevs, Serialise(f, abbrevs)) == (State(Grown(s.dies, s.current, f, abbrevs), s.current), true)
  }

  lemma ParsesNothing(s: State, abbrevs: AbbrevTable)
    requires s.Valid()
    ensures ParsesForest(s, abbrevs, [])
  {
    assert s.dies[s.current].children + [] == s.dies[s.current].children;
    assert Grown(s.dies, s.current, [], abbrevs) == s.dies;
  }

  lemma ParsesForestMeans(s: State, abbrevs: AbbrevTable, f: seq<Die>)
    requires s.Valid() && Described(f, abbrevs)
    ensures ParsesForest(s, abbrevs, f) <==>
      ParseItems(s, abbrevs, Serialise(f, abbrevs)) == (State(Grown(s.dies, s.current, f, abbrevs), s.current), true)
  {
  }

  /** A forest is parsed when its first DIE's children and its later trees are. */
  lemma ParsesMore(s: State, abbrevs: AbbrevTable, f: seq<Die>, t0: State, dies1: map<nat, Node>)
    requires s.Valid() && f != [] && Described(f, abbrevs) && Fresh(f, s.dies.Keys) && f[0].code in abbrevs
    requires t0 == ParseItem(s, abbrevs, Item(f[0].offset, f[0].code)).0
    requires f[0].offset in t0.dies && Described(f[0].children, abbrevs)
    requires dies1 == Grown(t0.dies, f[0].offset, f[0].children, abbrevs)
    requires abbrevs[f[0].code].hasChildren ==> ParsesForest(t0, abbrevs, f[0].children)
    requires State(dies1, s.current).Valid() && ParsesForest(State(dies1, s.current), abbrevs, f[1..])
    ensures ParsesForest(s, abbrevs, f)
  {
    hide Grown, Nodes, ParseItem, ParseItems, Entered, OffsetSet, Described, Fresh, Serialise, Body,
      ParsesForest, Offsets;
    var d, rest := f[0], f[1..];
    Heads(f, abbrevs, s.dies.Keys);
    var entry, tail := Item(d.offset, d.code), Serialise(rest, abbrevs);
    EnterDie(s, abbrevs, d);
    GrownInSteps(s.dies, s.current, f, abbrevs);
    ParsesForestMeans(t0, abbrevs, d.children);
    ParsesForestMeans(State(dies1, s.current), abbrevs, rest);
    ParsesForestMeans(s, abbrevs, f);
    ParseBody(t0, abbrevs, d, s.current, tail);
    ParseFirst(s, abbrevs, entry, Body(d, abbrevs) + tail);
  }

  /** The forest is added below the current DIE, which is current again afterwards. */
  lemma {:induction false} ParseForest(s: State, abbrevs: AbbrevTable, f: seq<Die>)
    requires s.Valid() && Described(f, abbrevs) && Fresh(f, s.dies.Keys)
    ensures ParseItems(s, abbrevs, Serialise(f, abbrevs))
      == (State(Grown(s.dies, s.current, f, abbrevs), s.current), true)
    decreases f
  {
    if f == [] {
      ParsesNothing(s, abbrevs);
    } else {
      hide Grown, Nodes, ParseItem, ParseItems, Entered, OffsetSet, Described, Fresh, Serialise, Body;
      var d := f[0];
      Heads(f, abbrevs, s.dies.Keys);
      EnterDie(s, abbrevs, d);
      GrownInSteps(s.dies, s.current, f, abbrevs);
      var t0 := ParseItem(s, abbrevs, Item(d.offset, d.code)).0;
      var dies1 := Grown(t0.dies, d.offset, d.children, abbrevs);
      if abbrevs[d.code].hasChildren {
        ParseForest(t0, abbrevs, d.children);
      }
      GrownIsValid(t0, d, s.current, abbrevs);
      ParseForest(State(dies1, s.current), abbrevs, f[1..]);
      ParsesMore(s, abbrevs, f, t0, dies1);
    }
  }

  ghost predicate ParentsIn(n: map<nat, Node>, parent: nat) {
    forall o :: o in n ==> n[o].parent == parent || n[o].parent in n
  }

  lemma ParentsInUnion(rest: map<nat, Node>, kids: map<nat, Node>, parent: nat, off: nat, node: Node)
    requires ParentsIn(rest, parent) && ParentsIn(kids, off) && node.parent == parent
    ensures ParentsIn(rest + kids + map[off := node], parent)
  {
  }

  lemma {:induction false} NodesParents(f: seq<Die>, parent: nat, abbrevs: AbbrevTable)
    requires Described(f, abbrevs)
    ensures ParentsIn(Nodes(f, parent, abbrevs), parent)
  {
    if f != [] {
      NodesParents(f[1..], parent, abbrevs);
      NodesParents(f[0].children, f[0].offset, abbrevs);
      ParentsInUnion(Nodes(f[1..], parent, abbrevs), Nodes(f[0].children, f[0].offset, abbrevs), parent, f[0].offset,
        Node(parent, abbrevs[f[0].code].tag, Offsets(f[0].children)));
    }
  }

  lemma GrownIsValid(t: State, d: Die, at: nat, abbrevs: AbbrevTable)
    requires t.Valid() && d.offset in t.dies && at in t.dies && Described(d.children, abbrevs)
    requires OffsetSet(d.children) !! t.dies.Keys
    ensures State(Grown(t.dies, d.offset, d.children, abbrevs), at).Valid()
  {
    NodesParents(d.children, d.offset, abbrevs);
    NodesKeys(d.children, d.offset, abbrevs);
  }

  /** What stands at the top level of a unit: trees, and any number of extra null entries. */
  datatype Top = Tree(die: Die) | Extra(offset: nat)

  function Trees(tops: seq<Top>): seq<Die> {
    if tops == [] then []
    else (if tops[0].Tree? then [tops[0].die] else []) + Trees(tops[1..])
  }

  predicate TopsDescribed(tops: seq<Top>, abbrevs: AbbrevTable) {
    tops == [] || ((tops[0].Tree? ==> Described([tops[0].die], abbrevs)) && TopsDescribed(tops[1..], abbrevs))
  }

  function SerialiseTops(tops: seq<Top>, abbrevs: AbbrevTable): seq<Item>
    requires TopsDescribed(tops, abbrevs)
  {
    if tops == [] then []
    else
      (match tops[0]
       case Tree(d) => Serialise([d], abbrevs)
       case Extra(offset) => [Item(offset, 0)]) + SerialiseTops(tops[1..], abbrevs)
  }

  lemma TreesSplit(tops: seq<Top>)
    requires tops != []
    ensures tops[0].Extra? ==> Trees(tops) == Trees(tops[1..])
    ensures tops[0].Tree? ==>
      Trees(tops) != [] && Trees(tops)[0] == tops[0].die && Trees(tops)[1..] == Trees(tops[1..])
  {
  }

  lemma {:induction false} TreesDescribed(tops: seq<Top>, abbrevs: AbbrevTable)
    requires TopsDescribed(tops, abbrevs)
    ensures Described(Trees(tops), abbrevs)
  {
    if tops != [] {
      TreesDescribed(tops[1..], abbrevs);
      TreesSplit(tops);
    }
  }

  /** Extra null entries at the top level change nothing. */
  lemma {:induction false} ParseTops(s: State, abbrevs: AbbrevTable, tops: seq<Top>)
    requires s.Valid() && s.current == ROOT && TopsDescribed(tops, abbrevs) && Fresh(Trees(tops), s.dies.Keys)
    ensures Described(Trees(tops), abbrevs)
    ensures ParseItems(s, abbrevs, SerialiseTops(tops, abbrevs))
      == (State(Grown(s.dies, ROOT, Trees(tops), abbrevs), ROOT), true)
    decreases |tops|
  {
    TreesDescribed(tops, abbrevs);
    if tops == [] {
      GrownByNothing(s.dies, abbrevs);
    } else {
      TreesSplit(tops);
      var more := SerialiseTops(tops[1..], abbrevs);
      if tops[0].Tree? {
        var d := tops[0].die;
        TreesDescribed(tops[1..], abbrevs);
        assert [d][1..] == [];
        assert Fresh([d], s.dies.Keys);
        ParseForest(s, abbrevs, [d]);
        ParseConcat(s, abbrevs, Serialise([d], abbrevs), more);
        GrownInSteps(s.dies, ROOT, Trees(tops), abbrevs);
        GrownInSteps(s.dies, ROOT, [d], abbrevs);
        var t := ParseItems(s, abbrevs, Serialise([d], abbrevs)).0;
        GrownByNothing(Grown(Entered(s.dies, ROOT, d, abbrevs), d.offset, d.children, abbrevs), abbrevs);
        ParseTops(t, abbrevs, tops[1..]);
      } else {
        var all := SerialiseTops(tops, abbrevs);
        assert all[0] == Item(tops[0].offset, 0) && all[1..] == more;
        assert ParseItem(s, abbrevs, all[0]) == (s, true);
        ParseTops(s, abbrevs, tops[1..]);
      }
    }
  }

  lemma GrownByNothing(dies: map<nat, Node>, abbrevs: AbbrevTable)
    requires ROOT in dies
    ensures Grown(dies, ROOT, [], abbrevs) == dies
  {
    assert dies[ROOT].children + [] == dies[ROOT].children;
  }

  // ---------------------------------------------------------------------------------------
  // All units

  datatype Source = Source(abbrevs: AbbrevTable, tops: seq<Top>)

  predicate AllDescribed(sources: seq<Source>) {
    sources == [] || (TopsDescribed(sources[0].tops, sources[0].abbrevs) && AllDescribed(sources[1..]))
  }

  /** The offsets of all units together are different. */
  predicate AllFresh(sources: seq<Source>, used: set<nat>) {
    sources == [] ||
    (Fresh(Trees(sources[0].tops), used) && AllFresh(sources[1..], used + OffsetSet(Trees(sources[0].tops))))
  }

  function SerialiseUnits(sources: seq<Source>): seq<Unit>
    requires AllDescribed(sources)
  {
    if sources == [] then []
    else [Unit(sources[0].abbrevs, SerialiseTops(sources[0].tops, sources[0].abbrevs))] + SerialiseUnits(sources[1..])
  }

  /** The DIEs of every unit under the one root. */
  function AllGrown(dies: map<nat, Node>, sources: seq<Source>): map<nat, Node>
    requires ROOT in dies && AllDescribed(sources)
    decreases |sources|
  {
    if sources == [] then dies
    else
      TreesDescribed(sources[0].tops, sources[0].abbrevs);
      AllGrown(Grown(dies, ROOT, Trees(sources[0].tops), sources[0].abbrevs), sources[1..])
  }

  lemma {:induction false} ParseAllUnits(s: State, sources: seq<Source>)
    requires s.Valid() && s.current == ROOT && AllDescribed(sources) && AllFresh(sources, s.dies.Keys)
    ensures ParseUnits(s, SerialiseUnits(sources)) == (State(AllGrown(s.dies, sources), ROOT), true)
    decreases |sources|
  {
    if sources != [] {
      var tops, abbrevs := sources[0].tops, sources[0].abbrevs;
      ParseTops(s, abbrevs, tops);
      NodesKeys(Trees(tops), ROOT, abbrevs);
      var t := ParseItems(s, abbrevs, SerialiseTops(tops, abbrevs)).0;
      assert t.dies.Keys == s.dies.Keys + OffsetSet(Trees(tops));
      assert SerialiseUnits(sources)[1..] == SerialiseUnits(sources[1..]);
      ParseAllUnits(t, sources[1..]);
    }
  }

  // ---------------------------------------------------------------------------------------
  // What the rebuilt tree holds

  /** Every DIE of a forest stands at its offset with its parent, its tag and its children in order. */
  predicate Represents(dies: map<nat, Node>, f: seq<Die>, parent: nat, abbrevs: AbbrevTable)
    requires Described(f, abbrevs)
  {
    f == [] ||
    (f[0].offset in dies && dies[f[0].offset] == Node(parent, abbrevs[f[0].code].tag, Offsets(f[0].children)) &&
     Represents(dies, f[0].children, f[0].offset, abbrevs) && Represents(dies, f[1..], parent, abbrevs))
  }

  lemma {:induction false} RepresentsStays(d: map<nat, Node>, e: map<nat, Node>, f: seq<Die>, parent: nat,
                                           abbrevs: AbbrevTable)
    requires Described(f, abbrevs) && Represents(d, f, parent, abbrevs)
    requires forall o :: o in OffsetSet(f) && o in d ==> o in e && e[o] == d[o]
    ensures Represents(e, f, parent, abbrevs)
  {
    if f != [] {
      RepresentsStays(d, e, f[0].children, f[0].offset, abbrevs);
      RepresentsStays(d, e, f[1..], parent, abbrevs);
    }
  }

  lemma {:induction false} NodesRepresent(f: seq<Die>, parent: nat, abbrevs: AbbrevTable, used: set<nat>)
    requires Described(f, abbrevs) && Fresh(f, used)
    ensures Represents(Nodes(f, parent, abbrevs), f, parent, abbrevs)
  {
    if f != [] {
      Heads(f, abbrevs, used);
      var d, rest := f[0], f[1..];
      FreshAvoids(rest, used + {d.offset} + OffsetSet(d.children));
      var K, R := Nodes(d.children, d.offset, abbrevs), Nodes(rest, parent, abbrevs);
      NodesKeys(d.children, d.offset, abbrevs);
      NodesKeys(rest, parent, abbrevs);
      NodesRepresent(d.children, d.offset, abbrevs, used + {d.offset});
      NodesRepresent(rest, parent, abbrevs, used + {d.offset} + OffsetSet(d.children));
      var all := Nodes(f, parent, abbrevs);
      RepresentsStays(K, all, d.children, d.offset, abbrevs);
      RepresentsStays(R, all, rest, parent, abbrevs);
    }
  }

  predicate AllRepresented(dies: map<nat, Node>, sources: seq<Source>)
    requires AllDescribed(sources)
  {
    if sources == [] then true
    else
      TreesDescribed(sources[0].tops, sources[0].abbrevs);
      Represents(dies, Trees(sources[0].tops), ROOT, sources[0].abbrevs) && AllRepresented(dies, sources[1..])
  }

  /** The top-level DIEs of all units in order. */
  function TopOffsets(sources: seq<Source>): seq<nat> {
    if sources == [] then [] else Offsets(Trees(sources[0].tops)) + TopOffsets(sources[1..])
  }

  function AllOffsets(sources: seq<Source>): set<nat> {
    if sources == [] then {} else OffsetSet(Trees(sources[0].tops)) + AllOffsets(sources[1..])
  }

  lemma GrownKeeps(dies: map<nat, Node>, f: seq<Die>, abbrevs: AbbrevTable)
    requires ROOT in dies && Described(f, abbrevs) && Fresh(f, dies.Keys)
    ensures var g := Grown(dies, ROOT, f, abbrevs);
      && g.Keys == dies.Keys + OffsetSet(f) && Represents(g, f, ROOT, abbrevs)
      && g[ROOT] == dies[ROOT].(children := dies[ROOT].children + Offsets(f))
      && forall o :: o in dies && o != ROOT ==> g[o] == dies[o]
  {
    NodesKeys(f, ROOT, abbrevs);
    FreshAvoids(f, dies.Keys);
    NodesRepresent(f, ROOT, abbrevs, dies.Keys);
    RepresentsStays(Nodes(f, ROOT, abbrevs), Grown(dies, ROOT, f, abbrevs), f, ROOT, abbrevs);
  }

  /** What growing by all units leaves behind. */
  ghost predicate Holds(g: map<nat, Node>, dies: map<nat, Node>, sources: seq<Source>)
    requires ROOT in dies && AllDescribed(sources)
  {
    && g.Keys == dies.Keys + AllOffsets(sources) && AllRepresented(g, sources)
    && g[ROOT] == dies[ROOT].(children := dies[ROOT].children + TopOffsets(sources))
    && forall o :: o in dies && o != ROOT ==> g[o] == dies[o]
  }

  lemma HoldsNothing(dies: map<nat, Node>)
    requires ROOT in dies
    ensures Holds(dies, dies, [])
  {
  }

  lemma HoldsMore(g: map<nat, Node>, dies: map<nat, Node>, sources: seq<Source>)
    requires ROOT in dies && sources != [] && AllDescribed(sources) && AllFresh(sources, dies.Keys)
    requires Described(Trees(sources[0].tops), sources[0].abbrevs)
    requires Holds(g, Grown(dies, ROOT, Trees(sources[0].tops), sources[0].abbrevs), sources[1..])
    ensures Holds(g, dies, sources)
  {
    hide Grown, Fresh, Represents, Described, OffsetSet, Offsets, Trees, TopsDescribed;
    var f, abbrevs := Trees(sources[0].tops), sources[0].abbrevs;
    var next := Grown(dies, ROOT, f, abbrevs);
    GrownKeeps(dies, f, abbrevs);
    FreshAvoids(f, dies.Keys);
    assert ROOT !in OffsetSet(f);
    RepresentsStays(next, g, f, ROOT, abbrevs);
    assert dies[ROOT].children + Offsets(f) + TopOffsets(sources[1..]) == dies[ROOT].children + TopOffsets(sources);
  }

  lemma {:induction false} AllGrownHolds(dies: map<nat, Node>, sources: seq<Source>)
    requires ROOT in dies && AllDescribed(sources) && AllFresh(sources, dies.Keys)
    ensures Holds(AllGrown(dies, sources), dies, sources)
    decreases |sources|
  {
    hide Grown, Fresh, Represents, Described, OffsetSet, Offsets, Trees, Holds;
    if sources == [] {
      HoldsNothing(dies);
    } else {
      var f, abbrevs := Trees(sources[0].tops), sources[0].abbrevs;
      TreesDescribed(sources[0].tops, abbrevs);
      GrownKeeps(dies, f, abbrevs);
      AllGrownHolds(Grown(dies, ROOT, f, abbrevs), sources[1..]);
      HoldsMore(AllGrown(dies, sources), dies, sources);
    }
  }

  /** .debug_info is rebuilt: every DIE is found at its offset with its own parent, tag and
      children in order, the root's children are the top-level DIEs of all units in order,
      nothing else is there, and the current DIE is the root again. */
  lemma ParseInfoRebuildsForest(sources: seq<Source>)
    requires AllDescribed(sources) && AllFresh(sources, {ROOT})
    ensures var (s, ok) := ParseUnits(START, SerialiseUnits(sources));
      && ok && s.current == ROOT
      && s.dies.Keys == {ROOT} + AllOffsets(sources)
      && s.dies[ROOT] == Node(ROOT, NULL_TAG, TopOffsets(sources))
      && AllRepresented(s.dies, sources)
  {
    assert START.dies.Keys == {ROOT};
    ParseAllUnits(START, sources);
    AllGrownHolds(START.dies, sources);
    assert [] + TopOffsets(sources) == TopOffsets(sources);
  }
}
