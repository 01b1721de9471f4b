/** Traverse::Iterator: a child iterator that expands base classes with a nested iterator of
    its own kind, against the flattened list of children. */
module DieIterator {
  import opened Machine

  /** A child DIE: its import attribute, if it has one, and whether its tag is inheritance. */
  datatype Die = Die(offset: nat, imported: Option<nat>, inheritance: bool)

  /** The DIEs by offset, and the children of the type that each inheritance DIE refers to. */
  datatype World = World(dies: map<nat, Die>, bases: map<nat, seq<Die>>)

  /** A child that the iterator replaces by the children of its base. */
  predicate Expands(d: Die, inherit: bool) {
    d.imported.None? && inherit && d.inheritance
  }

  /** Imports can be resolved, inheritance refers to a type, and bases nest at most depth deep. */
  predicate Sound(w: World, list: seq<Die>, inherit: bool, depth: nat)
    decreases depth, |list|
  {
    list == [] ||
    ((list[0].imported.Some? ==> list[0].imported.value in w.dies) &&
     (Expands(list[0], inherit) ==>
        list[0].offset in w.bases && depth > 0 && Sound(w, w.bases[list[0].offset], true, depth - 1)) &&
     Sound(w, list[1..], inherit, depth))
  }

  /** Every base that is expanded, at any depth, has children. */
  predicate Filled(w: World, list: seq<Die>, inherit: bool, depth: nat)
    requires Sound(w, list, inherit, depth)
    decreases depth, |list|
  {
    list == [] ||
    ((Expands(list[0], inherit) ==>
        w.bases[list[0].offset] != [] && Filled(w, w.bases[list[0].offset], true, depth - 1)) &&
     Filled(w, list[1..], inherit, depth))
  }

  /** Going down into the base of the first child, and of the first of its children, and so on,
      comes to an empty list. */
  predicate HeadBare(w: World, list: seq<Die>, inherit: bool, depth: nat)
    requires Sound(w, list, inherit, depth)
    decreases depth
  {
    list == [] || (Expands(list[0], inherit) && HeadBare(w, w.bases[list[0].offset], true, depth - 1))
  }

  /** The children, with imports replaced by their targets and bases by their own flattening. */
  function Flatten(w: World, list: seq<Die>, inherit: bool, depth: nat): seq<Die>
    requires Sound(w, list, inherit, depth)
    decreases depth, |list|
  {
    if list == [] then [] else First(w, list[0], inherit, depth) + Flatten(w, list[1..], inherit, depth)
  }

  /** What one child contributes. */
  function First(w: World, d: Die, inherit: bool, depth: nat): seq<Die>
    requires Sound(w, [d], inherit, depth)
    decreases depth, 0
  {
    if d.imported.Some? then [w.dies[d.imported.value]]
    else if Expands(d, inherit) then Flatten(w, w.bases[d.offset], true, depth - 1)
    else [d]
  }

  /** A list is its first child and the rest: an import is followed, an inheritance DIE gives way
      to the children of its base if these are asked for, and any other child stays. */
  lemma HeadParts(w: World, list: seq<Die>, inherit: bool, depth: nat)
    requires Sound(w, list, inherit, depth) && list != []
    ensures Sound(w, list[1..], inherit, depth)
    ensures inherit && list[0].inheritance && list[0].imported.None? ==>
      && list[0].offset in w.bases && depth > 0 && Sound(w, w.bases[list[0].offset], true, depth - 1)
      && Flatten(w, list, inherit, depth)
        == Flatten(w, w.bases[list[0].offset], true, depth - 1) + Flatten(w, list[1..], inherit, depth)
    ensures !inherit || !list[0].inheritance || list[0].imported.Some? ==>
      && (list[0].imported.Some? ==> list[0].imported.value in w.dies)
      && Flatten(w, list, inherit, depth)
        == [if list[0].imported.Some? then w.dies[list[0].imported.value] else list[0]]
          + Flatten(w, list[1..], inherit, depth)
  {
    assert [list[0]][1..] == [];
  }

  lemma {:induction false} FlattenNotEmpty(w: World, list: seq<Die>, inherit: bool, depth: nat)
    requires Sound(w, list, inherit, depth) && !HeadBare(w, list, inherit, depth)
    ensures Flatten(w, list, inherit, depth) != []
    ensures Sound(w, [list[0]], inherit, depth) && First(w, list[0], inherit, depth) != []
    decreases depth
  {
    assert [list[0]][1..] == [];
    if Expands(list[0], inherit) {
      FlattenNotEmpty(w, w.bases[list[0].offset], true, depth - 1);
    }
  }

  lemma {:induction false} BareIsNotFilled(w: World, list: seq<Die>, inherit: bool, depth: nat)
    requires Sound(w, list, inherit, depth) && list != [] && HeadBare(w, list, inherit, depth)
    ensures !Filled(w, list, inherit, depth)
    decreases depth
  {
    if w.bases[list[0].offset] != [] {
      BareIsNotFilled(w, w.bases[list[0].offset], true, depth - 1);
    }
  }

  lemma {:induction false} SoundFrom(w: World, list: seq<Die>, inherit: bool, depth: nat, pos: nat)
    requires Sound(w, list, inherit, depth) && pos <= |list|
    ensures Sound(w, list[pos..], inherit, depth)
    decreases pos
  {
    if pos > 0 {
      SoundFrom(w, list, inherit, depth, pos - 1);
      assert list[pos - 1..][1..] == list[pos..];
    }
  }

  /** The bound on the depth is only there for termination. */
  lemma {:induction false} FlattenIgnoresDepth(w: World, list: seq<Die>, inherit: bool, m: nat, n: nat)
    requires Sound(w, list, inherit, m) && Sound(w, list, inherit, n)
    ensures Flatten(w, list, inherit, m) == Flatten(w, list, inherit, n)
    ensures Filled(w, list, inherit, m) == Filled(w, list, inherit, n)
    decreases m, |list|
  {
    if list != [] {
      if Expands(list[0], inherit) {
        FlattenIgnoresDepth(w, w.bases[list[0].offset], true, m - 1, n - 1);
      }
      FlattenIgnoresDepth(w, list[1..], inherit, m, n);
    }
  }

  class Iterator {
    const world: World
    const list: seq<Die>
    const inherit: bool
    /** How deep bases may nest below this list. */
    ghost const depth: nat
    var it: nat
    var nestedIt: Iterator?
    ghost var Repr: set<object>

    ghost predicate Valid()
      reads this, Repr
      decreases depth
    {
      && this in Repr && it <= |list| && Sound(world, list, inherit, depth)
      && (nestedIt != null ==>
           && nestedIt in Repr && nestedIt.Repr <= Repr && this !in nestedIt.Repr
           && nestedIt.depth < depth && nestedIt.Valid() && nestedIt.world == world
           && it < |list| && (nestedIt.it < |nestedIt.list| || nestedIt.list == []))
    }

    /** What the iterator has still to give. */
    ghost function Rest(): seq<Die>
      requires Valid()
      reads this, Repr
      decreases depth
    {
      if nestedIt == null then SoundFrom(world, list, inherit, depth, it); Flatten(world, list[it..], inherit, depth)
      else
        SoundFrom(world, list, inherit, depth, it + 1);
        nestedIt.Rest() + Flatten(world, list[it + 1..], inherit, depth)
    }

    /** No empty base is still to come. */
    ghost predicate RestFilled()
      requires Valid()
      reads this, Repr
      decreases depth
    {
      if nestedIt == null then SoundFrom(world, list, inherit, depth, it); Filled(world, list[it..], inherit, depth)
      else
        SoundFrom(world, list, inherit, depth, it + 1);
        nestedIt.list != [] && nestedIt.RestFilled() && Filled(world, list[it + 1..], inherit, depth)
    }

    /** value has been called since the last step: no base remains to be opened. */
    ghost predicate Opened()
      requires Valid()
      reads this, Repr
      decreases depth
    {
      if nestedIt == null then it < |list| && !Expands(list[it], inherit) else nestedIt.Opened()
    }

    /** The next child is looked for at the end of a list. */
    ghost predicate Bare()
      requires Valid()
      reads this, Repr
      decreases depth
    {
      if nestedIt == null then SoundFrom(world, list, inherit, depth, it); HeadBare(world, list[it..], inherit, depth)
      else nestedIt.Bare()
    }

    constructor (world: World, list: seq<Die>, inherit: bool, ghost depth: nat)
      requires Sound(world, list, inherit, depth)
      ensures Valid() && fresh(Repr) && this.depth == depth && this.world == world && this.list == list
      ensures it == 0 && Rest() == Flatten(world, list, inherit, depth)
      ensures RestFilled() == Filled(world, list, inherit, depth) && Bare() == HeadBare(world, list, inherit, depth)
    {
      this.world, this.list, this.inherit, this.depth := world, list, inherit, depth;
      it, nestedIt := 0, null;
      Repr := {this};
      new;
      assert list[0..] == list;
    }

    method Done() returns (done: bool)
      requires Valid()
      ensures done <==> it == |list|
      ensures done ==> Rest() == [] && RestFilled()
      ensures !done && RestFilled() ==> Rest() != []
    {
      if it < |list| {
        FilledIsNotBare();
      }
      done := it == |list|;
    }

    lemma FilledIsNotBare()
      requires Valid() && it < |list|
      ensures Bare() ==> !RestFilled()
      ensures !Bare() ==> Rest() != []
      decreases depth
    {
      SoundFrom(world, list, inherit, depth, it);
      if nestedIt == null {
        if Bare() {
          BareIsNotFilled(world, list[it..], inherit, depth);
        } else {
          FlattenNotEmpty(world, list[it..], inherit, depth);
        }
      } else if nestedIt.list != [] {
        nestedIt.FilledIsNotBare();
      } else {
        assert nestedIt.Bare() by { nestedIt.EmptyIsBare(); }
      }
    }

    lemma EmptyIsBare()
      requires Valid() && list == []
      ensures Bare()
    {
    }

    /** Start on the children of the base that the current child refers to. */
    method OpenBase()
      requires Valid() && nestedIt == null && it < |list| && Expands(list[it], inherit)
      modifies this
      ensures Valid() && fresh(Repr - old(Repr)) && it == old(it) && nestedIt != null
      ensures Rest() == old(Rest()) && RestFilled() == old(RestFilled()) && Bare() == old(Bare())
    {
      SoundFrom(world, list, inherit, depth, it);
      assert list[it..][1..] == list[it + 1..];
      HeadParts(world, list[it..], inherit, depth);
      nestedIt := new Iterator(world, world.bases[list[it].offset], true, depth - 1);
      Repr := Repr + nestedIt.Repr;
    }

    lemma HeadOfRest()
      requires Valid() && nestedIt == null && it < |list| && !Expands(list[it], inherit)
      ensures Sound(world, list[it + 1..], inherit, depth)
      ensures list[it].imported.Some? ==> list[it].imported.value in world.dies
      ensures Rest() == [if list[it].imported.Some? then world.dies[list[it].imported.value] else list[it]]
        + Flatten(world, list[it + 1..], inherit, depth)
      ensures RestFilled() == Filled(world, list[it + 1..], inherit, depth) && !Bare()
    {
      SoundFrom(world, list, inherit, depth, it);
      SoundFrom(world, list, inherit, depth, it + 1);
      assert list[it..][1..] == list[it + 1..];
      HeadParts(world, list[it..], inherit, depth);
    }

    /** value; None stands for reading a child at the end of a list, which is undefined. */
    method Value() returns (d: Option<Die>)
      requires Valid()
      modifies Repr
      ensures Valid() && fresh(Repr - old(Repr)) && it == old(it)
      ensures d.None? <==> old(Bare())
      ensures Rest() == old(Rest()) && RestFilled() == old(RestFilled())
      ensures d.Some? ==> Rest() != [] && d.value == Rest()[0] && Opened()
      decreases depth, 1
    {
      if nestedIt == null {
        if it == |list| { return None; }
        if !(inherit && list[it].inheritance) || list[it].imported.Some? {
          HeadOfRest();
          d := Some(list[it]);
          if list[it].imported.Some? {
            d := Some(world.dies[list[it].imported.value]);
          }
          return;
        }
        OpenBase();
      }
      d := NestedValue();
    }

    method NestedValue() returns (d: Option<Die>)
      requires Valid() && nestedIt != null
      modifies Repr
      ensures Valid() && fresh(Repr - old(Repr)) && it == old(it)
      ensures d.None? <==> old(Bare())
      ensures Rest() == old(Rest()) && RestFilled() == old(RestFilled())
      ensures d.Some? ==> Rest() != [] && d.value == Rest()[0] && Opened()
      decreases depth, 0
    {
      d := nestedIt.Value();
      Repr := Repr + nestedIt.Repr;
    }

    method Next()
      requires Valid() && Opened()
      modifies Repr
      ensures Valid() && fresh(Repr - old(Repr))
      ensures old(Rest()) != [] && Rest() == old(Rest())[1..] && RestFilled() == old(RestFilled())
      decreases depth, 1
    {
      if nestedIt != null {
        NestedNext();
      } else {
        HeadOfRest();
        it := it + 1;
      }
    }

    method NestedNext()
      requires Valid() && nestedIt != null && nestedIt.Opened()
      modifies Repr
      ensures Valid() && fresh(Repr - old(Repr))
      ensures old(Rest()) != [] && Rest() == old(Rest())[1..] && RestFilled() == old(RestFilled())
      decreases depth, 0
    {
      hide Flatten, Sound, First, Filled, HeadBare;
      SoundFrom(world, list, inherit, depth, it + 1);
      nestedIt.OpenedIsNotEmpty();
      ghost var inner, outer := nestedIt.Rest(), Flatten(world, list[it + 1..], inherit, depth);
      assert Rest() == inner + outer;
      nestedIt.Next();
      assert (inner + outer)[1..] == inner[1..] + outer;
      var done := nestedIt.Done();
      Repr := Repr + nestedIt.Repr;
      if done {
        assert [] + outer == outer;
        nestedIt := null;
        it := it + 1;
      }
    }

    lemma OpenedIsNotEmpty()
      requires Valid() && Opened()
      ensures list != []
    {
    }
  }

  /** The loop with which every caller reads children: value, then next, until done.  It reads
      past the end of a list, and gives None, exactly when some base it expands is empty. */
  method Enumerate(world: World, list: seq<Die>, inherit: bool, ghost depth: nat) returns (all: Option<seq<Die>>)
    requires Sound(world, list, inherit, depth)
    ensures all == if Filled(world, list, inherit, depth) then Some(Flatten(world, list, inherit, depth)) else None
  {
    hide Flatten, Filled, HeadBare, Sound;
    var i := new Iterator(world, list, inherit, depth);
    ghost var goal, filled := i.Rest(), i.RestFilled();
    assert goal == Flatten(world, list, inherit, depth) && filled == Filled(world, list, inherit, depth);
    var read: seq<Die> := [];
    assert read + i.Rest() == goal;
    var done := i.Done();
    while !done
      invariant i.Valid() && fresh(i.Repr)
      invariant done <==> i.it == |i.list|
      invariant done ==> i.Rest() == [] && i.RestFilled()
      invariant read + i.Rest() == goal && i.RestFilled() == filled
      decreases |i.Rest()|
    {
      var more := Read(i, read);
      if more.None? { return None; }
      read := more.value;
      done := i.Done();
    }
    assert read + [] == read;
    all := Some(read);
  }

  method Read(i: Iterator, all: seq<Die>) returns (more: Option<seq<Die>>)
    requires i.Valid() && i.it < |i.list|
    modifies i.Repr
    ensures more.None? ==> !old(i.RestFilled())
    ensures more.Some? ==>
      && i.Valid() && fresh(i.Repr - old(i.Repr)) && |i.Rest()| < |old(i.Rest())|
      && more.value + i.Rest() == all + old(i.Rest()) && i.RestFilled() == old(i.RestFilled())
  {
    i.FilledIsNotBare();
    var d := i.Value();
    if d.None? { return None; }
    ghost var rest := i.Rest();
    assert rest == [rest[0]] + rest[1..];
    i.Next();
    more := Some(all + [d.value]);
  }
}
