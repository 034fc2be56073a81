// The list of suggestions Clink offers for the input line
// (clink/lib/src/suggestions.cpp): its items, their renumbering when a
// history entry is removed, and the generation counter that tells one
// batch of suggestions from the next.

module Suggest {

  const Uint32Limit: int := 0x1_0000_0000

  newtype int32 = h: int | -0x8000_0000 <= h < 0x8000_0000

  /** One suggestion; historyIndex is the 32-bit signed index of the history
      entry it came from. */
  datatype Suggestion = Suggestion(text: string, offset: nat, source: string,
                                   highlightOffset: int, highlightLength: int,
                                   tooltip: string, historyIndex: int32)

  /** The history index as the unsigned 32-bit value it is compared as. */
  function AsUnsigned(h: int32): (u: int)
    ensures 0 <= u < Uint32Limit
    ensures h >= 0 ==> u == h as int
    ensures h < 0 ==> u >= 0x8000_0000
  {
    if h < 0 then h as int + Uint32Limit else h as int
  }

  /** A 32-bit signed decrement. */
  function Dec32(h: int32): (r: int32)
    ensures h > -0x8000_0000 ==> r == h - 1
  {
    if h == -0x8000_0000 then 0x7fff_ffff else h - 1
  }

  /** The item refers to the history entry being removed. */
  predicate Hit(x: Suggestion, index: nat)
  {
    AsUnsigned(x.historyIndex) == index
  }

  /** The item after the removal of history entry `index`: entries above it
      move down by one. */
  function Shift(x: Suggestion, index: nat): (y: Suggestion)
    ensures y.(historyIndex := x.historyIndex) == x
    ensures x.historyIndex >= 0 ==>
              y.historyIndex as int == if x.historyIndex as int > index then x.historyIndex as int - 1 else x.historyIndex as int
  {
    if AsUnsigned(x.historyIndex) > index then x.(historyIndex := Dec32(x.historyIndex)) else x
  }

  /** The items after remove_if_history_index, one item at a time. */
  function Renumber(items: seq<Suggestion>, index: nat): (r: seq<Suggestion>)
    ensures |r| <= |items|
  {
    if items == [] then []
    else if Hit(items[0], index) then Renumber(items[1..], index)
    else [Shift(items[0], index)] + Renumber(items[1..], index)
  }

  /** The items that do not refer to the entry, in their order. */
  function Without(items: seq<Suggestion>, index: nat): (r: seq<Suggestion>)
    ensures |r| <= |items|
    ensures forall x :: x in r <==> x in items && !Hit(x, index)
  {
    if items == [] then []
    else if Hit(items[0], index) then Without(items[1..], index)
    else [items[0]] + Without(items[1..], index)
  }

  /** Every item renumbered, none dropped. */
  function ShiftAll(items: seq<Suggestion>, index: nat): (r: seq<Suggestion>)
    ensures |r| == |items|
    ensures forall k :: 0 <= k < |items| ==> r[k] == Shift(items[k], index)
  {
    if items == [] then [] else [Shift(items[0], index)] + ShiftAll(items[1..], index)
  }

  /** Removal drops the items of that entry and renumbers the rest, keeping
      their order. */
  lemma {:induction false} RenumberIsShiftedRemainder(items: seq<Suggestion>, index: nat)
    ensures Renumber(items, index) == ShiftAll(Without(items, index), index)
    decreases |items|
  {
    if items != [] {
      RenumberIsShiftedRemainder(items[1..], index);
    }
  }

  /** Removal works piecewise, so it never reorders items. */
  lemma {:induction false} RenumberAppend(a: seq<Suggestion>, b: seq<Suggestion>, index: nat)
    ensures Renumber(a + b, index) == Renumber(a, index) + Renumber(b, index)
    decreases |a|
  {
    if a != [] {
      assert (a + b)[1..] == a[1..] + b;
      RenumberAppend(a[1..], b, index);
    } else {
      assert a + b == b;
    }
  }

  /** Removal of one item moves from the front of the items to the back of
      the result. */
  lemma RenumberStep(done: seq<Suggestion>, rest: seq<Suggestion>, index: nat)
    requires rest != []
    ensures Hit(rest[0], index) ==> done + Renumber(rest, index) == done + Renumber(rest[1..], index)
    ensures !Hit(rest[0], index) ==>
              done + Renumber(rest, index) == (done + [Shift(rest[0], index)]) + Renumber(rest[1..], index)
  {
  }

  /** A batch of suggestions for one input line. */
  class Suggestions {
    var line: string
    var items: seq<Suggestion>
    var generationId: nat
    var dirtied: bool

    ghost predicate Valid()
      reads this
    {
      generationId < Uint32Limit
    }

    constructor()
      ensures Valid() && line == [] && items == [] && generationId == 0 && !dirtied
    {
      line, items, generationId, dirtied := [], [], 0, false;
    }

    /** clear: no line and no items, the given generation, not dirtied. */
    method Clear(generation: nat)
      requires generation < Uint32Limit
      modifies this
      ensures Valid() && line == [] && items == [] && generationId == generation && !dirtied
    {
      line := [];
      items := [];
      generationId := generation;
      dirtied := false;
    }

    /** add: one more item at the end. */
    method Add(text: string, offset: nat, source: string, highlightOffset: int,
               highlightLength: int, tooltip: string, historyIndex: int32)
      requires Valid()
      modifies this
      ensures Valid()
      ensures items == old(items) + [Suggestion(text, offset, source, highlightOffset, highlightLength, tooltip, historyIndex)]
      ensures line == old(line) && generationId == old(generationId) && dirtied == old(dirtied)
    {
      var s := Suggestion(text, offset, source, highlightOffset, highlightLength, tooltip, historyIndex);
      items := items + [s];
    }

    /** remove: erases item i; the caller passes an existing item. */
    method Remove(i: nat)
      requires Valid() && i < |items|
      modifies this
      ensures Valid()
      ensures items == old(items[..i]) + old(items[i + 1..]) && dirtied
      ensures line == old(line) && generationId == old(generationId)
    {
      items := items[..i] + items[i + 1..];
      dirtied := true;
    }

    /** remove_if_history_index: drops the items of history entry `index` and
        renumbers the later entries, in place. */
    method RemoveIfHistoryIndex(index: nat)
      requires Valid() && index < Uint32Limit
      modifies this
      ensures Valid()
      ensures items == Renumber(old(items), index) && dirtied
      ensures line == old(line) && generationId == old(generationId)
    {
      var i := 0;
      ghost var done: seq<Suggestion> := [];
      ghost var rest := items;
      while i < |items|
        invariant items == done + rest && i == |done|
        invariant line == old(line) && generationId == old(generationId)
        invariant done + Renumber(rest, index) == Renumber(old(items), index)
        decreases |rest|
      {
        var x := items[i];
        assert x == rest[0];
        RenumberStep(done, rest, index);
        if Hit(x, index) {
          items := items[..i] + items[i + 1..];
          assert items == done + rest[1..];
        } else {
          items := items[i := Shift(x, index)];
          assert items == (done + [Shift(x, index)]) + rest[1..];
          done := done + [Shift(x, index)];
          i := i + 1;
        }
        rest := rest[1..];
      }
      dirtied := true;
    }
  }

  /** The generation that follows id: the 32-bit increment, skipping 0. */
  function NextGeneration(id: nat): (g: nat)
    requires id < Uint32Limit
  {
    var n := if id + 1 == Uint32Limit then 0 else id + 1;
    if n == 0 then 1 else n
  }

  /** new_generation never hands out 0, so 0 can mean "no generation". */
  lemma NextGenerationIsNonZero(id: nat)
    requires id < Uint32Limit
    ensures 0 < NextGeneration(id) < Uint32Limit
    ensures id + 1 < Uint32Limit ==> NextGeneration(id) == id + 1
    ensures id + 1 == Uint32Limit ==> NextGeneration(id) == 1
  {
  }

  /** The counter behind suggestion_manager::new_generation. */
  class GenerationCounter {
    var id: nat

    constructor()
      ensures id == 0
    {
      id := 0;
    }

    method NewGeneration() returns (g: nat)
      requires id < Uint32Limit
      modifies this
      ensures g == id == NextGeneration(old(id))
    {
      id := if id + 1 == Uint32Limit then 0 else id + 1;
      if id == 0 {
        id := id + 1;
      }
      g := id;
    }
  }
}
