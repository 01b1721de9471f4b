/** The std::map pretty printer: an in-order walk over a libstdc++ red-black tree that is
    read one word at a time from the traced process. */
module MapWalk {
  import opened Machine

  const MAX_LOOPS: nat := 256

  type Memory = Word -> Word

  /** Offsets of _M_left, _M_right and _M_parent inside a node. */
  datatype Links = Links(left: Word, right: Word, parent: Word)

  /** The tree that the memory is meant to hold; a node is named by its address. */
  datatype Tree = Nil | Node(left: Tree, addr: Word, right: Tree)

  function Root(t: Tree): Word {
    if t.Nil? then 0 else t.addr
  }

  function InOrder(t: Tree): seq<Word> {
    if t.Nil? then [] else InOrder(t.left) + [t.addr] + InOrder(t.right)
  }

  /** Number of left links below the root. */
  function Spine(t: Tree): nat {
    if t.Nil? || t.left.Nil? then 0 else 1 + Spine(t.left)
  }

  predicate IsPointer(a: Word) {
    a != 0 && a != ALL_ONES
  }

  ghost predicate Distinct(s: seq<Word>) {
    forall i, j :: 0 <= i < j < |s| ==> s[i] != s[j]
  }

  /** Every node of t links to its children and to its parent. */
  ghost predicate Layout(mem: Memory, o: Links, t: Tree, parent: Word) {
    t.Node? ==>
      && IsPointer(t.addr)
      && mem(Add(t.addr, o.parent)) == parent
      && mem(Add(t.addr, o.left)) == Root(t.left)
      && mem(Add(t.addr, o.right)) == Root(t.right)
      && Layout(mem, o, t.left, t.addr)
      && Layout(mem, o, t.right, t.addr)
  }

  /** libstdc++'s header node: it links to the root, the leftmost and the rightmost node, and
      to itself on both sides when the map is empty. */
  ghost predicate HeaderLayout(mem: Memory, o: Links, t: Tree, h: Word) {
    && IsPointer(h)
    && h !in InOrder(t)
    && Distinct(InOrder(t))
    && Layout(mem, o, t, h)
    && mem(Add(h, o.parent)) == Root(t)
    && mem(Add(h, o.left)) == First(t, h)
    && mem(Add(h, o.right)) == Last(t, h)
  }

  function First(t: Tree, h: Word): Word {
    if InOrder(t) == [] then h else InOrder(t)[0]
  }

  function Last(t: Tree, h: Word): Word {
    if InOrder(t) == [] then h else InOrder(t)[|InOrder(t)| - 1]
  }

  /** What follows position i of the in-order listing; the header ends it. */
  function Successor(t: Tree, h: Word, i: nat): Word {
    if i + 1 < |InOrder(t)| then InOrder(t)[i + 1] else h
  }

  /** How many links the walk from node x follows in one loop: the left spine of its right
      subtree, or the number of right links above it. */
  function WalkLength(t: Tree, x: Word, climbed: nat): nat {
    if t.Nil? then 0
    else if t.addr == x then if t.right.Node? then Spine(t.right) else climbed
    else if x in InOrder(t.left) then WalkLength(t.left, x, 0)
    else WalkLength(t.right, x, climbed + 1)
  }

  // ---------------------------------------------------------------------------------------
  // What the walk computes on any memory at all

  /** The loop down left links: x is the node reached and left its left link. */
  function Descend(mem: Memory, o: Links, x: Word, left: Word, count: nat): Word
    requires count <= MAX_LOOPS
    decreases MAX_LOOPS - count
  {
    if left == 0 then x
    else
      var next := mem(Add(left, o.left));
      if next == ALL_ONES then 0
      else if count == MAX_LOOPS then left
      else Descend(mem, o, left, next, count + 1)
  }

  /** The loop up right links: x is a node, y its parent and right the right link of y. */
  function Climb(mem: Memory, o: Links, x: Word, y: Word, right: Word, count: nat): Option<(Word, Word)>
    requires count <= MAX_LOOPS
    decreases MAX_LOOPS - count
  {
    if x != right then Some((x, y))
    else
      var parent := mem(Add(y, o.parent));
      if parent == ALL_ONES then None
      else
        var next := mem(Add(parent, o.right));
        if next == ALL_ONES then None
        else if count == MAX_LOOPS then Some((y, parent))
        else Climb(mem, o, y, parent, next, count + 1)
  }

  /** The address the walk moves to from a node; 0 when a word reads as all ones. */
  function NextNode(mem: Memory, o: Links, node: Word): Word {
    var right := mem(Add(node, o.right));
    if right == ALL_ONES then 0
    else if right != 0 then
      var left := mem(Add(right, o.left));
      if left == ALL_ONES then 0 else Descend(mem, o, right, left, 0)
    else
      var parent := mem(Add(node, o.parent));
      if parent == ALL_ONES then 0
      else
        var up := mem(Add(parent, o.right));
        if up == ALL_ONES then 0
        else
          match Climb(mem, o, node, parent, up, 0)
          case None => 0
          case Some((x, y)) =>
            var last := mem(Add(x, o.right));
            if last == ALL_ONES then 0 else if last != y then y else x
  }

  /** The addresses whose values the printing loop writes; None for an empty result string. */
  function Listing(mem: Memory, o: Links, curr: Word, next: Word, end: Word, count: nat): Option<seq<Word>>
    requires count <= MAX_LOOPS
    decreases MAX_LOOPS - count
  {
    if curr == end then Some([])
    else
      var after := NextNode(mem, o, next);
      if !IsPointer(after) then None
      else if count == MAX_LOOPS then Some([curr])
      else
        match Listing(mem, o, next, after, end, count + 1)
        case None => None
        case Some(rest) => Some([curr] + rest)
  }

  /** What mapPrinter shows when base is the address recorded for _M_header. */
  function Printed(mem: Memory, o: Links, store: Word, base: Word): Option<seq<Word>> {
    var start := NextNode(mem, o, base);
    var second := NextNode(mem, o, start);
    if !IsPointer(start) || !IsPointer(second) then None
    else
      match Listing(mem, o, start, second, Add(base, o.parent), 0)
      case None => None
      case Some(nodes) => Some(Values(nodes, store))
  }

  /** nextMapNodeAddr. */
  method NextMapNodeAddr(node: Word, o: Links, mem: Memory) returns (xptr: Word)
    ensures xptr == NextNode(mem, o, node)
  {
    xptr := node;
    var right := mem(Add(xptr, o.right));
    if right == ALL_ONES { return 0; }
    if right != 0 {
      xptr := right;
      var left := mem(Add(xptr, o.left));
      if left == ALL_ONES { return 0; }
      var count := 0;
      while left != 0
        invariant count <= MAX_LOOPS
        invariant Descend(mem, o, xptr, left, count) == NextNode(mem, o, node)
        decreases MAX_LOOPS - count
      {
        xptr := left;
        left := mem(Add(xptr, o.left));
        if left == ALL_ONES { return 0; }
        count := count + 1;
        if count > MAX_LOOPS { break; }
      }
    } else {
      var parent := mem(Add(xptr, o.parent));
      if parent == ALL_ONES { return 0; }
      var yptr := parent;
      right := mem(Add(yptr, o.right));
      if right == ALL_ONES { return 0; }
      ghost var whole := Climb(mem, o, xptr, yptr, right, 0);
      var count := 0;
      while xptr == right
        invariant count <= MAX_LOOPS
        invariant Climb(mem, o, xptr, yptr, right, count) == whole
        decreases MAX_LOOPS - count
      {
        xptr := yptr;
        parent := mem(Add(yptr, o.parent));
        if parent == ALL_ONES { return 0; }
        yptr := parent;
        right := mem(Add(yptr, o.right));
        if right == ALL_ONES { return 0; }
        count := count + 1;
        if count > MAX_LOOPS { break; }
      }
      assert whole == Some((xptr, yptr));
      right := mem(Add(xptr, o.right));
      if right == ALL_ONES { return 0; }
      if right != yptr {
        xptr := yptr;
      }
    }
  }

  /** The loop of mapPrinter: base is the address recorded for _M_header, and the result holds
      the addresses at which values are printed. */
  method MapPrinter(base: Word, o: Links, store: Word, mem: Memory) returns (printed: Option<seq<Word>>)
    ensures printed == Printed(mem, o, store, base)
  {
    hide NextNode;
    var endAddr := Add(base, o.parent);
    var currNodeAddr := NextMapNodeAddr(base, o, mem);
    if currNodeAddr == 0 || currNodeAddr == ALL_ONES { return None; }
    var nextNodeAddr := NextMapNodeAddr(currNodeAddr, o, mem);
    if nextNodeAddr == 0 || nextNodeAddr == ALL_ONES { return None; }
    ghost var whole := Listing(mem, o, currNodeAddr, nextNodeAddr, endAddr, 0);
    var s: seq<Word> := [];
    ghost var nodes: seq<Word> := [];
    var count := 0;
    assert forall r: seq<Word> :: nodes + r == r;
    while currNodeAddr != endAddr
      invariant count <= MAX_LOOPS
      invariant s == Values(nodes, store)
      invariant whole == Prefixed(nodes, Listing(mem, o, currNodeAddr, nextNodeAddr, endAddr, count))
      decreases MAX_LOOPS - count
    {
      PrefixedMore(nodes, currNodeAddr, store);
      s := s + [Add(currNodeAddr, store)];
      nodes := nodes + [currNodeAddr];
      currNodeAddr := nextNodeAddr;
      nextNodeAddr := NextMapNodeAddr(currNodeAddr, o, mem);
      if nextNodeAddr == 0 || nextNodeAddr == ALL_ONES { return None; }
      count := count + 1;
      if count > MAX_LOOPS {
        assert whole == Some(nodes);
        break;
      }
    }
    assert nodes + [] == nodes;
    return Some(s);
  }

  lemma PrefixedMore(done: seq<Word>, a: Word, store: Word)
    ensures Values(done + [a], store) == Values(done, store) + [Add(a, store)]
    ensures done + [] == done
    ensures forall r: seq<Word> :: done + ([a] + r) == done + [a] + r
  {
  }

  function Values(nodes: seq<Word>, store: Word): seq<Word> {
    seq(|nodes|, i requires 0 <= i < |nodes| => Add(nodes[i], store))
  }

  ghost function Prefixed(done: seq<Word>, rest: Option<seq<Word>>): Option<seq<Word>> {
    match rest
    case None => None
    case Some(r) => Some(done + r)
  }

  // ---------------------------------------------------------------------------------------
  // Subtrees in context

  /** The path from a subtree up to the root, with what hangs off it. */
  datatype Context =
    | Top
    | InLeft(addr: Word, right: Tree, up: Context)
    | InRight(left: Tree, addr: Word, up: Context)

  function Plug(t: Tree, c: Context): Tree
    decreases c
  {
    match c
    case Top => t
    case InLeft(a, r, up) => Plug(Node(t, a, r), up)
    case InRight(l, a, up) => Plug(Node(l, a, t), up)
  }

  function Before(c: Context): seq<Word> {
    match c
    case Top => []
    case InLeft(_, _, up) => Before(up)
    case InRight(l, a, up) => Before(up) + InOrder(l) + [a]
  }

  function After(c: Context): seq<Word> {
    match c
    case Top => []
    case InLeft(a, r, up) => [a] + InOrder(r) + After(up)
    case InRight(_, _, up) => After(up)
  }

  function ParentOf(c: Context, h: Word): Word {
    match c
    case Top => h
    case InLeft(a, _, _) => a
    case InRight(_, a, _) => a
  }

  /** Right links directly above the subtree. */
  function Climbs(c: Context): nat {
    if c.InRight? then 1 + Climbs(c.up) else 0
  }

  lemma Regroup(w: seq<Word>, l: seq<Word>, a: Word, r: seq<Word>, z: seq<Word>)
    ensures w + (l + [a] + r) + z == w + l + ([a] + r + z)
    ensures w + (l + [a] + r) + z == w + l + [a] + r + z
  {
  }

  lemma {:induction false} PlugInOrder(t: Tree, c: Context)
    ensures InOrder(Plug(t, c)) == Before(c) + InOrder(t) + After(c)
    decreases c
  {
    hide InOrder;
    match c
    case Top => assert [] + InOrder(t) + [] == InOrder(t);
    case InLeft(a, r, up) =>
      PlugInOrder(Node(t, a, r), up);
      InOrderOfNode(Node(t, a, r));
      Regroup(Before(up), InOrder(t), a, InOrder(r), After(up));
    case InRight(l, a, up) =>
      PlugInOrder(Node(l, a, t), up);
      InOrderOfNode(Node(l, a, t));
      Regroup(Before(up), InOrder(l), a, InOrder(t), After(up));
  }

  lemma {:induction false} PlugLayout(mem: Memory, o: Links, t: Tree, c: Context, h: Word)
    requires Layout(mem, o, Plug(t, c), h)
    ensures Layout(mem, o, t, ParentOf(c, h))
    decreases c
  {
    match c
    case Top =>
    case InLeft(a, r, up) => PlugLayout(mem, o, Node(t, a, r), up, h);
    case InRight(l, a, up) => PlugLayout(mem, o, Node(l, a, t), up, h);
  }

  /** Every node is the root of a subtree in some context. */
  lemma {:induction false} Locate(t: Tree, c: Context, x: Word) returns (s: Tree, d: Context)
    requires x in InOrder(t)
    ensures s.Node? && s.addr == x && Plug(s, d) == Plug(t, c)
    ensures WalkLength(t, x, Climbs(c)) == if s.right.Node? then Spine(s.right) else Climbs(d)
  {
    if t.addr == x {
      s, d := t, c;
    } else if x in InOrder(t.left) {
      s, d := Locate(t.left, InLeft(t.addr, t.right, c), x);
    } else {
      s, d := Locate(t.right, InRight(t.left, t.addr, c), x);
    }
  }

  lemma {:induction false} LayoutPointers(mem: Memory, o: Links, t: Tree, parent: Word, x: Word)
    requires Layout(mem, o, t, parent) && x in InOrder(t)
    ensures IsPointer(x)
  {
    if t.addr != x {
      if x in InOrder(t.left) {
        LayoutPointers(mem, o, t.left, t.addr, x);
      } else {
        LayoutPointers(mem, o, t.right, t.addr, x);
      }
    }
  }

  lemma DistinctParts(t: Tree)
    requires t.Node? && Distinct(InOrder(t))
    ensures Distinct(InOrder(t.left)) && Distinct(InOrder(t.right))
    ensures t.addr !in InOrder(t.left) && t.addr !in InOrder(t.right)
    ensures forall x :: x in InOrder(t.left) ==> x !in InOrder(t.right)
  {
    var n := |InOrder(t.left)|;
    assert forall i :: 0 <= i < n ==> InOrder(t)[i] == InOrder(t.left)[i];
    assert InOrder(t)[n] == t.addr;
    assert forall i :: 0 <= i < |InOrder(t.right)| ==> InOrder(t)[n + 1 + i] == InOrder(t.right)[i];
  }

  // ---------------------------------------------------------------------------------------
  // The walk over a laid-out tree

  lemma RootIsLink(mem: Memory, o: Links, t: Tree, parent: Word)
    requires Layout(mem, o, t, parent)
    ensures Root(t) != ALL_ONES && (Root(t) == 0 <==> t.Nil?)
  {
  }

  lemma FirstOfLeft(t: Tree)
    requires t.Node? && Distinct(InOrder(t))
    ensures InOrder(t) != [] && t.addr in InOrder(t)
    ensures t.left.Nil? ==> InOrder(t)[0] == t.addr
    ensures t.left.Node? ==> InOrder(t.left) != [] && InOrder(t)[0] == InOrder(t.left)[0] && t.addr != InOrder(t)[0]
    ensures forall x :: x in InOrder(t.left) ==> x in InOrder(t)
  {
    DistinctParts(t);
  }

  lemma {:induction false} DescendFindsFirst(mem: Memory, o: Links, s: Tree, parent: Word, count: nat)
    requires s.Node? && Layout(mem, o, s, parent) && Distinct(InOrder(s)) && count <= MAX_LOOPS
    ensures var x := Descend(mem, o, s.addr, Root(s.left), count);
      && x in InOrder(s)
      && (x == InOrder(s)[0] <==> count + Spine(s) <= 257)
    decreases s
  {
    hide InOrder, Distinct;
    FirstOfLeft(s);
    if s.left.Node? {
      var t := s.left;
      RootIsLink(mem, o, t, s.addr);
      RootIsLink(mem, o, t.left, t.addr);
      DistinctParts(s);
      FirstOfLeft(t);
      if count < MAX_LOOPS {
        DescendFindsFirst(mem, o, t, s.addr, count + 1);
      }
    }
  }

  lemma {:induction false} DescendStaysAtHeader(mem: Memory, o: Links, h: Word, count: nat)
    requires IsPointer(h) && mem(Add(h, o.left)) == h && count <= MAX_LOOPS
    ensures Descend(mem, o, h, h, count) == h
    decreases MAX_LOOPS - count
  {
    if count < MAX_LOOPS {
      DescendStaysAtHeader(mem, o, h, count + 1);
    }
  }

  lemma DistinctMiddle(a: seq<Word>, b: seq<Word>, c: seq<Word>)
    requires Distinct(a + b + c)
    ensures Distinct(b)
    ensures forall x :: x in b ==> x !in a && x !in c
    ensures forall x :: x in a ==> x !in c
  {
    var s := a + b + c;
    assert forall i :: 0 <= i < |a| ==> s[i] == a[i];
    assert forall i :: 0 <= i < |b| ==> s[|a| + i] == b[i];
    assert forall i :: 0 <= i < |c| ==> s[|a| + |b| + i] == c[i];
  }

  /** The node after everything below a context, where the climb has to stop. */
  function Turn(c: Context, h: Word): Word {
    if After(c) == [] then h else After(c)[0]
  }

  lemma NodeInContext(mem: Memory, o: Links, s: Tree, c: Context, t: Tree, h: Word)
    requires s.Node? && Plug(s, c) == t && HeaderLayout(mem, o, t, h)
    ensures Layout(mem, o, s, ParentOf(c, h)) && Distinct(InOrder(s))
    ensures forall x :: x in InOrder(s) ==> x in InOrder(t) && x !in Before(c) && x !in After(c)
    ensures forall x :: x in Before(c) ==> x in InOrder(t) && x !in After(c)
    ensures forall x :: x in After(c) ==> x in InOrder(t)
  {
    PlugInOrder(s, c);
    PlugLayout(mem, o, s, c, h);
    DistinctMiddle(Before(c), InOrder(s), After(c));
  }

  lemma TurnIsParent(mem: Memory, o: Links, s: Tree, c: Context, t: Tree, h: Word)
    requires s.Node? && Plug(s, c) == t && HeaderLayout(mem, o, t, h)
    ensures ParentOf(c, h) == Turn(c, h) <==> !c.InRight?
    ensures ParentOf(c, h) !in InOrder(s)
    ensures IsPointer(ParentOf(c, h))
  {
    NodeInContext(mem, o, s, c, t, h);
    match c
    case Top =>
    case InLeft(a, r, up) =>
      assert a in After(c);
      LayoutPointers(mem, o, t, h, a);
    case InRight(l, a, up) =>
      assert a in Before(c);
      LayoutPointers(mem, o, t, h, a);
  }

  lemma RightLinkOfHeader(mem: Memory, o: Links, t: Tree, h: Word)
    requires t.Node? && HeaderLayout(mem, o, t, h)
    ensures mem(Add(h, o.right)) != ALL_ONES
    ensures mem(Add(h, o.right)) == t.addr <==> t.right.Nil?
  {
    LayoutPointers(mem, o, t, h, Last(t, h));
    DistinctParts(t);
    if t.right.Node? {
      var r := InOrder(t.right);
      assert InOrder(t) == InOrder(t.left) + [t.addr] + r;
      assert Last(t, h) == r[|r| - 1];
      assert r[|r| - 1] in r;
    }
  }

  /** The right link that the climb compares with the node it comes from. */
  lemma RightLinkOfParent(mem: Memory, o: Links, s: Tree, c: Context, t: Tree, h: Word)
    requires s.Node? && Plug(s, c) == t && HeaderLayout(mem, o, t, h)
    ensures mem(Add(ParentOf(c, h), o.right)) != ALL_ONES
    ensures mem(Add(ParentOf(c, h), o.right)) == s.addr <==> c.InRight? || (c.Top? && s.right.Nil?)
    ensures c.InRight? ==> mem(Add(c.addr, o.parent)) == ParentOf(c.up, h)
  {
    if c.Top? {
      RightLinkOfHeader(mem, o, t, h);
    } else {
      var m := if c.InLeft? then Node(s, c.addr, c.right) else Node(c.left, c.addr, s);
      NodeInContext(mem, o, m, c.up, t, h);
      DistinctParts(m);
      RootIsLink(mem, o, m.right, m.addr);
      assert m.right.Node? ==> m.right.addr in InOrder(m.right);
      assert s.addr in InOrder(s);
    }
  }

  lemma Members(s: Tree)
    requires s.Node?
    ensures s.addr in InOrder(s) && (s.right.Node? ==> s.right.addr in InOrder(s))
  {
  }

  /** The climb ends at a node that is not its parent's right child, unless it is cut short. */
  lemma {:induction false} ClimbFindsTurn(mem: Memory, o: Links, s: Tree, c: Context, t: Tree, h: Word, count: nat)
    requires s.Node? && Plug(s, c) == t && HeaderLayout(mem, o, t, h) && count <= MAX_LOOPS
    requires !(c.Top? && s.right.Nil?)
    ensures var y := ParentOf(c, h);
      var r := Climb(mem, o, s.addr, y, mem(Add(y, o.right)), count);
      && r.Some?
      && r.value.0 in InOrder(t)
      && mem(Add(r.value.0, o.right)) != r.value.1 && mem(Add(r.value.0, o.right)) != ALL_ONES
      && IsPointer(r.value.1)
      && (r.value.1 == Turn(c, h) <==> count + Climbs(c) <= 257)
    decreases c
  {
    hide InOrder, Distinct, HeaderLayout;
    NodeInContext(mem, o, s, c, t, h);
    TurnIsParent(mem, o, s, c, t, h);
    RightLinkOfParent(mem, o, s, c, t, h);
    RootIsLink(mem, o, s.right, s.addr);
    Members(s);
    if c.InRight? {
      var m := Node(c.left, c.addr, s);
      NodeInContext(mem, o, m, c.up, t, h);
      TurnIsParent(mem, o, m, c.up, t, h);
      RightLinkOfParent(mem, o, m, c.up, t, h);
      Members(m);
      if count < MAX_LOOPS {
        ClimbFindsTurn(mem, o, m, c.up, t, h, count + 1);
      }
    }
  }

  // ---------------------------------------------------------------------------------------
  // Main results

  /** From any node the walk reaches the in-order successor, or the header after the last
      node, exactly when no more than 257 links have to be followed. */
  lemma NextNodeIsSuccessor(mem: Memory, o: Links, t: Tree, h: Word, i: nat)
    requires HeaderLayout(mem, o, t, h) && i < |InOrder(t)|
    ensures var x := InOrder(t)[i];
      && IsPointer(NextNode(mem, o, x))
      && (NextNode(mem, o, x) == Successor(t, h, i) <==> WalkLength(t, x, 0) <= 257)
  {
    var x := InOrder(t)[i];
    var s, c := Locate(t, Top, x);
    NodeInContext(mem, o, s, c, t, h);
    RootIsLink(mem, o, s.right, x);
    SuccessorInContext(s, c, t, h, i);
    if s.right.Node? {
      DescendFrom(mem, o, s, c, t, h);
    } else {
      ClimbFrom(mem, o, s, c, t, h);
    }
  }

  lemma SuccessorInContext(s: Tree, c: Context, t: Tree, h: Word, i: nat)
    requires s.Node? && Plug(s, c) == t && Distinct(InOrder(t))
    requires i < |InOrder(t)| && InOrder(t)[i] == s.addr
    ensures Successor(t, h, i) == if s.right.Node? then InOrder(s.right)[0] else Turn(c, h)
  {
    PlugInOrder(s, c);
    InOrderOfNode(s);
    hide InOrder, Plug, Before, After;
    var l, r := Before(c) + InOrder(s.left), InOrder(s.right) + After(c);
    assert InOrder(t) == l + [s.addr] + r;
    PositionInMiddle(l, s.addr, r, i);
    InOrderNotEmpty(s.right);
  }

  lemma InOrderOfNode(s: Tree)
    requires s.Node?
    ensures InOrder(s) == InOrder(s.left) + [s.addr] + InOrder(s.right)
  {
  }

  lemma InOrderNotEmpty(t: Tree)
    ensures t.Node? ==> InOrder(t) != []
    ensures t.Nil? ==> InOrder(t) == []
  {
  }

  lemma PositionInMiddle(l: seq<Word>, x: Word, r: seq<Word>, i: nat)
    requires Distinct(l + [x] + r) && i < |l + [x] + r| && (l + [x] + r)[i] == x
    ensures i == |l|
    ensures r != [] ==> i + 1 < |l + [x] + r| && (l + [x] + r)[i + 1] == r[0]
    ensures r == [] ==> i + 1 == |l + [x] + r|
  {
    assert (l + [x] + r)[|l|] == x;
  }

  lemma DescendFrom(mem: Memory, o: Links, s: Tree, c: Context, t: Tree, h: Word)
    requires s.Node? && s.right.Node? && Plug(s, c) == t && HeaderLayout(mem, o, t, h)
    ensures IsPointer(NextNode(mem, o, s.addr))
    ensures NextNode(mem, o, s.addr) == InOrder(s.right)[0] <==> Spine(s.right) <= MAX_LOOPS + 1
  {
    var r := s.right;
    NodeInContext(mem, o, s, c, t, h);
    DistinctParts(s);
    RootIsLink(mem, o, r, s.addr);
    RootIsLink(mem, o, r.left, r.addr);
    DescendFindsFirst(mem, o, r, s.addr, 0);
    LayoutPointers(mem, o, r, s.addr, Descend(mem, o, r.addr, Root(r.left), 0));
  }

  lemma ClimbFrom(mem: Memory, o: Links, s: Tree, c: Context, t: Tree, h: Word)
    requires s.Node? && s.right.Nil? && Plug(s, c) == t && HeaderLayout(mem, o, t, h)
    ensures IsPointer(NextNode(mem, o, s.addr))
    ensures NextNode(mem, o, s.addr) == Turn(c, h) <==> Climbs(c) <= MAX_LOOPS + 1
  {
    NodeInContext(mem, o, s, c, t, h);
    TurnIsParent(mem, o, s, c, t, h);
    RightLinkOfParent(mem, o, s, c, t, h);
    if c.Top? {
      // The root is the last node: one step up reaches the header, whose right link is the root.
      assert s.addr in InOrder(s);
      assert Climb(mem, o, s.addr, h, s.addr, 0) == Climb(mem, o, h, s.addr, 0, 1);
    } else {
      ClimbFindsTurn(mem, o, s, c, t, h, 0);
    }
  }

  /** Read from the recorded address, which is the header minus the parent offset, the walk
      starts at the first node, or at the header of an empty map. */
  lemma NextNodeFromBase(mem: Memory, o: Links, t: Tree, h: Word)
    requires HeaderLayout(mem, o, t, h) && o.right == o.left + o.parent
    ensures NextNode(mem, o, Sub(h, o.parent)) == First(t, h)
  {
    assert Add(Sub(h, o.parent), o.right) == Add(h, o.left) by { BackAndForth(h, o.parent, o.left); }
    hide Layout, Distinct, Add, Sub, Climb;
    if t.Nil? {
      DescendStaysAtHeader(mem, o, h, 0);
    } else {
      FirstHasNoLeft(mem, o, t, h);
    }
  }

  lemma BackAndForth(h: Word, p: Word, l: Word)
    ensures Add(Sub(h, p), l + p) == Add(h, l)
  {
  }

  lemma {:induction false} FirstHasNoLeft(mem: Memory, o: Links, t: Tree, parent: Word)
    requires t.Node? && Layout(mem, o, t, parent)
    ensures IsPointer(InOrder(t)[0]) && mem(Add(InOrder(t)[0], o.left)) == 0
  {
    if t.left.Node? {
      FirstHasNoLeft(mem, o, t.left, t.addr);
      assert InOrder(t)[0] == InOrder(t.left)[0];
    }
  }

  /** The walk is asked for one more node after the header; it still answers with a pointer. */
  lemma NextNodeFromHeader(mem: Memory, o: Links, t: Tree, h: Word)
    requires HeaderLayout(mem, o, t, h)
    ensures IsPointer(NextNode(mem, o, h))
  {
    if t.Nil? {
      DescendStaysAtHeader(mem, o, h, 0);
    } else {
      var x := Last(t, h);
      LayoutPointers(mem, o, t, h, x);
      var s, c := Locate(t, Top, x);
      NodeInContext(mem, o, s, c, t, h);
      RootIsLink(mem, o, s.left, x);
      DescendFindsFirst(mem, o, s, ParentOf(c, h), 0);
      LayoutPointers(mem, o, s, ParentOf(c, h), Descend(mem, o, x, Root(s.left), 0));
    }
  }

  /** No walk of the tree is cut short. */
  ghost predicate Shallow(t: Tree) {
    forall x :: x in InOrder(t) ==> WalkLength(t, x, 0) <= 257
  }

  /** Where a listing that starts at position i with count nodes shown stops. */
  function Cut(t: Tree, i: nat, count: nat): nat
    requires count <= MAX_LOOPS
  {
    if |InOrder(t)| <= i + MAX_LOOPS + 1 - count then |InOrder(t)| else i + MAX_LOOPS + 1 - count
  }

  lemma {:induction false} ListingIsInOrder(mem: Memory, o: Links, t: Tree, h: Word, i: nat, count: nat)
    requires HeaderLayout(mem, o, t, h) && Shallow(t) && count <= MAX_LOOPS && i < |InOrder(t)|
    ensures Listing(mem, o, InOrder(t)[i], Successor(t, h, i), h, count) == Some(InOrder(t)[i..Cut(t, i, count)])
    decreases MAX_LOOPS - count
  {
    hide NextNode, HeaderLayout;
    var s, next := InOrder(t), Successor(t, h, i);
    assert s[i] != h by { HeaderIsNoNode(mem, o, t, h); }
    var after := NextNode(mem, o, next);
    if i + 1 < |s| {
      NextNodeIsSuccessor(mem, o, t, h, i + 1);
      assert s[i + 1] in s;
    } else {
      NextNodeFromHeader(mem, o, t, h);
    }
    assert IsPointer(after);
    if count < MAX_LOOPS {
      if i + 1 < |s| {
        ListingIsInOrder(mem, o, t, h, i + 1, count + 1);
        assert s[i..Cut(t, i, count)] == [s[i]] + s[i + 1..Cut(t, i, count)];
      } else {
        assert Listing(mem, o, next, after, h, count + 1) == Some([]);
        assert Cut(t, i, count) == i + 1;
        assert s[i..i + 1] == [s[i]] + [];
      }
    } else {
      assert s[i..i + 1] == [s[i]];
    }
  }

  lemma HeaderIsNoNode(mem: Memory, o: Links, t: Tree, h: Word)
    requires HeaderLayout(mem, o, t, h)
    ensures h !in InOrder(t) && IsPointer(h)
  {
  }

  /** The pretty printer shows the elements of the map in order, cut at 257 of them, each read
      from where it is stored in its node. */
  lemma MapPrinterShowsInOrder(mem: Memory, o: Links, store: Word, t: Tree, h: Word)
    requires HeaderLayout(mem, o, t, h) && Shallow(t) && o.right == o.left + o.parent
    ensures var n := if |InOrder(t)| <= 257 then |InOrder(t)| else 257;
      var shown := Printed(mem, o, store, Sub(h, o.parent));
      && shown == Some(Values(InOrder(t)[..n], store))
      && |shown.value| == n && forall k :: 0 <= k < n ==> shown.value[k] == Add(InOrder(t)[k], store)
  {
    hide NextNode, HeaderLayout;
    NextNodeFromBase(mem, o, t, h);
    HeaderIsNoNode(mem, o, t, h);
    assert Add(Sub(h, o.parent), o.parent) == h;
    NextNodeFromHeader(mem, o, t, h);
    if t.Node? {
      NextNodeIsSuccessor(mem, o, t, h, 0);
      assert InOrder(t)[0] in InOrder(t);
      FirstIsPointer(mem, o, t, h);
      ListingIsInOrder(mem, o, t, h, 0, 0);
      assert Cut(t, 0, 0) == if |InOrder(t)| <= MAX_LOOPS + 1 then |InOrder(t)| else MAX_LOOPS + 1;
      assert InOrder(t)[0..Cut(t, 0, 0)] == InOrder(t)[..Cut(t, 0, 0)];
    }
  }

  lemma FirstIsPointer(mem: Memory, o: Links, t: Tree, h: Word)
    requires t.Node? && HeaderLayout(mem, o, t, h)
    ensures IsPointer(First(t, h))
    ensures IsPointer(Successor(t, h, 0))
  {
    LayoutPointers(mem, o, t, h, First(t, h));
    if 1 < |InOrder(t)| {
      LayoutPointers(mem, o, t, h, InOrder(t)[1]);
    }
  }

  /** A word that reads as all ones is never taken for a node, wherever the walk meets it. */
  lemma NextNodeIsReadable(mem: Memory, o: Links, node: Word)
    requires node != 0xffff_ffff_ffff_ffff
    ensures NextNode(mem, o, node) != 0xffff_ffff_ffff_ffff
    ensures mem(Add(node, o.right)) == 0xffff_ffff_ffff_ffff ==> NextNode(mem, o, node) == 0
  {
    hide Add;
    var right, parent := mem(Add(node, o.right)), mem(Add(node, o.parent));
    if right != ALL_ONES && right != 0 && mem(Add(right, o.left)) != ALL_ONES {
      DescendIsReadable(mem, o, right, mem(Add(right, o.left)), 0);
    } else if right == 0 && parent != ALL_ONES {
      ClimbIsReadable(mem, o, node, parent, mem(Add(parent, o.right)), 0);
    }
  }

  lemma {:induction false} DescendIsReadable(mem: Memory, o: Links, x: Word, left: Word, count: nat)
    requires count <= MAX_LOOPS && x != ALL_ONES && left != ALL_ONES
    ensures Descend(mem, o, x, left, count) != ALL_ONES
    decreases MAX_LOOPS - count
  {
    hide Add;
    if left != 0 && mem(Add(left, o.left)) != ALL_ONES && count < MAX_LOOPS {
      DescendIsReadable(mem, o, left, mem(Add(left, o.left)), count + 1);
    }
  }

  lemma {:induction false} ClimbIsReadable(mem: Memory, o: Links, x: Word, y: Word, right: Word, count: nat)
    requires count <= MAX_LOOPS && x != ALL_ONES && y != ALL_ONES
    ensures match Climb(mem, o, x, y, right, count)
      case None => true
      case Some((v, w)) => v != ALL_ONES && w != ALL_ONES
    decreases MAX_LOOPS - count
  {
    hide Add;
    var parent := mem(Add(y, o.parent));
    if x == right && parent != ALL_ONES && mem(Add(parent, o.right)) != ALL_ONES && count < MAX_LOOPS {
      ClimbIsReadable(mem, o, y, parent, mem(Add(parent, o.right)), count + 1);
    }
  }

  /** Nothing at all is shown when the walk starts badly. */
  lemma UnreadableMapShowsNothing(mem: Memory, o: Links, store: Word, base: Word)
    requires base != 0xffff_ffff_ffff_ffff && NextNode(mem, o, base) == 0
    ensures Printed(mem, o, store, base) == None
  {
  }

  // ---------------------------------------------------------------------------------------
  // Red-black trees

  /** The shape admits a red-black colouring with n black nodes on every path. */
  ghost predicate RedBlack(t: Tree, n: nat, mayBeRed: bool) {
    if t.Nil? then n == 0
    else
      || (mayBeRed && RedBlack(t.left, n, false) && RedBlack(t.right, n, false))
      || (n > 0 && RedBlack(t.left, n - 1, true) && RedBlack(t.right, n - 1, true))
  }

  function Height(t: Tree): nat {
    if t.Nil? then 0
    else 1 + if Height(t.left) < Height(t.right) then Height(t.right) else Height(t.left)
  }

  function Pow2(n: nat): (p: nat)
    ensures p > n
  {
    if n == 0 then 1 else 2 * Pow2(n - 1)
  }

  lemma {:induction false} SpineWithinHeight(t: Tree)
    ensures Spine(t) <= Height(t)
  {
    if t.Node? {
      SpineWithinHeight(t.left);
    }
  }

  /** A walk follows no more links than the tree is high. */
  lemma {:induction false} WalkWithinHeight(t: Tree, x: Word, climbed: nat)
    ensures WalkLength(t, x, climbed) <= climbed + Height(t)
  {
    if t.Node? {
      SpineWithinHeight(t.right);
      WalkWithinHeight(t.left, x, 0);
      WalkWithinHeight(t.right, x, climbed + 1);
    }
  }

  lemma {:induction false} RedBlackBounds(t: Tree, n: nat, mayBeRed: bool)
    requires RedBlack(t, n, mayBeRed)
    ensures |InOrder(t)| + 1 >= Pow2(n)
    ensures Height(t) <= 2 * n + if mayBeRed then 1 else 0
  {
    if t.Node? {
      if mayBeRed && RedBlack(t.left, n, false) && RedBlack(t.right, n, false) {
        RedBlackBounds(t.left, n, false);
        RedBlackBounds(t.right, n, false);
      } else {
        RedBlackBounds(t.left, n - 1, true);
        RedBlackBounds(t.right, n - 1, true);
      }
    }
  }

  lemma {:induction false} Pigeonhole(s: set<nat>, n: nat)
    requires forall x :: x in s ==> x < n
    ensures |s| <= n
  {
    if n == 0 {
      assert s == {};
    } else {
      Pigeonhole(s - {n - 1}, n - 1);
    }
  }

  lemma {:induction false} DistinctCount(s: seq<Word>)
    requires Distinct(s)
    ensures |(set x: nat | x in s)| == |s|
  {
    if s != [] {
      var all, rest := (set x: nat | x in s), (set x: nat | x in s[1..]);
      DistinctCount(s[1..]);
      assert s[0] !in rest;
      assert all == {s[0]} + rest;
    }
  }

  lemma FourDoublings(n: nat)
    ensures Pow2(n + 4) == 16 * Pow2(n)
  {
    assert Pow2(n + 2) == 4 * Pow2(n);
  }

  lemma MorePow2(n: nat)
    ensures Pow2(n + 16) == 0x1_0000 * Pow2(n)
  {
    hide Pow2;
    FourDoublings(n);
    FourDoublings(n + 4);
    FourDoublings(n + 8);
    FourDoublings(n + 12);
  }

  lemma {:induction false} Pow2Grows(m: nat, n: nat)
    requires m <= n
    ensures Pow2(m) <= Pow2(n)
  {
    if m < n {
      Pow2Grows(m, n - 1);
    }
  }

  lemma PowerPastWords(n: nat)
    requires n > 64
    ensures Pow2(n) >= 2 * WORD_SIZE
  {
    hide Pow2;
    PowerZero();
    MorePow2(0);
    MorePow2(16);
    MorePow2(32);
    MorePow2(48);
    PowerNext(64);
    Pow2Grows(65, n);
  }

  lemma PowerZero()
    ensures Pow2(0) == 1
  {
  }

  lemma PowerNext(n: nat)
    ensures Pow2(n + 1) == 2 * Pow2(n)
  {
  }

  /** Distinct addresses are too few for a black height above 64. */
  lemma BlackHeightIsSmall(t: Tree, n: nat)
    requires RedBlack(t, n, false) && Distinct(InOrder(t))
    ensures n <= 64
  {
    hide RedBlack, InOrder, Distinct, Pow2;
    RedBlackBounds(t, n, false);
    DistinctCount(InOrder(t));
    Pigeonhole((set x: nat | x in InOrder(t)), WORD_SIZE);
    if n > 64 {
      PowerPastWords(n);
    }
  }

  /** No walk over a red-black tree is cut short. */
  lemma RedBlackIsShallow(t: Tree, n: nat)
    requires RedBlack(t, n, false) && Distinct(InOrder(t))
    ensures Shallow(t)
  {
    BlackHeightIsSmall(t, n);
    RedBlackBounds(t, n, false);
    forall x | x in InOrder(t) ensures WalkLength(t, x, 0) <= 257 {
      WalkWithinHeight(t, x, 0);
    }
  }
}
