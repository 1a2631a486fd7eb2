/**
 set_intersect.c: the intersection of two sets of int cells, its iteration
 callback, the cell helpers intsave and itemdelete, and the scenario that
 main builds. Each set holds pointers to heap cells; what a set means as a
 value is its `Contents`, and the two passes of the intersection are proved
 against `IntersectSpec.Pass` and `IntersectSpec.Intersection`.

 The helper as written leaks the copy it makes whenever set_insert rejects
 it, which happens for every common key in the second pass. The members
 named `...AsWritten` model that code and expose the leak; the other ones
 free the rejected copy, and the scenario `Demo` uses them.
 */
module SetIntersect {
  import opened Memory
  import opened Sets
  import opened IntersectSpec

  // ---------------------------------------------------------------------
  // intsave and itemdelete

  /** intsave(item): a new cell, not live before, holding `item`. */
  method IntSave(heap: Heap, item: int) returns (saved: Ptr)
    requires heap.Valid()
    modifies heap
    ensures heap.Valid()
    ensures saved.Addr? && saved.addr !in old(heap.cells)
    ensures heap.cells == old(heap.cells)[saved.addr := item]
  {
    saved := heap.Malloc();
    heap.Store(saved, item);
  }

  /** itemdelete(item): frees the cell unless the pointer is NULL. */
  method ItemDelete(heap: Heap, item: Ptr)
    requires heap.Valid()
    requires item != Null ==> heap.Live(item)
    modifies heap
    ensures heap.Valid()
    ensures heap.cells == if item == Null then old(heap.cells) else old(heap.cells) - {item.addr}
  {
    if item != Null {
      heap.Free(item);
    }
  }

  /** set_insert(s, key, intsave(v)), as main does it: a new cell holding
      `v` is offered to the set. When the key is already present the set
      rejects the cell, which stays live and is held by nobody. */
  method InsertSaved(heap: Heap, s: Set, key: string, v: int) returns (inserted: bool)
    requires heap.Valid() && Owns(s.items, heap.cells) && Unaliased(s.items)
    modifies heap, s
    ensures heap.Valid() && Preserved(old(heap.cells), heap.cells)
    ensures Owns(s.items, heap.cells) && Unaliased(s.items)
    ensures inserted <==> key !in old(s.items)
    ensures Contents(s.items, heap.cells) == InsertIfAbsent(old(Contents(s.items, heap.cells)), key, v)
    ensures Grew(old(heap.cells), old(s.items), heap.cells, s.items, if inserted then 0 else 1)
  {
    ghost var items0, cells0 := s.items, heap.cells;
    var saved := IntSave(heap, v);
    inserted := s.Insert(key, saved);
    if inserted {
      InsertFreshCell(items0, cells0, key, saved.addr, v);
    } else {
      ContentsPreserved(items0, cells0, heap.cells);
      assert key in Contents(items0, cells0);
    }
  }

  // ---------------------------------------------------------------------
  // set_intersect_helper

  /** set_intersect_helper(data, key, item), with the copy freed when the
      destination rejects it. The item argument is not used (nor is it by
      the source). */
  method IntersectHelper(heap: Heap, setA: Set, setB: Set, destination: Set, key: string)
    requires heap.Valid() && Owns(setA.items, heap.cells) && Owns(setB.items, heap.cells)
    requires Owns(destination.items, heap.cells) && Unaliased(destination.items)
    requires destination != setA && destination != setB
    modifies heap, destination
    ensures heap.Valid() && Preserved(old(heap.cells), heap.cells)
    ensures Owns(destination.items, heap.cells) && Unaliased(destination.items)
    ensures Contents(destination.items, heap.cells)
         == Visit(old(Contents(destination.items, heap.cells)), key, old(Contents(setA.items, heap.cells)), old(Contents(setB.items, heap.cells)))
    ensures Grew(old(heap.cells), old(destination.items), heap.cells, destination.items, 0)
  {
    ghost var d0, c0 := destination.items, heap.cells;
    ghost var cell: nat := 0;
    var itemA := setA.Find(key);
    var itemB := setB.Find(key);
    if itemA != Null && itemB != Null {
      var copy := IntSave(heap, heap.Load(itemB));
      cell := copy.addr;
      var inserted := destination.Insert(key, copy);
      if !inserted {
        ItemDelete(heap, copy);
        assert heap.cells == c0;
      }
    }
    VisitCells(d0, c0, destination.items, heap.cells, setA.items, setB.items, key, cell, true, 0);
  }

  /** set_intersect_helper as written: when set_insert rejects the copy of
      `*itemB` (the key is already in the destination) the copy is never
      freed; `lost` counts the cells thus left live. */
  method IntersectHelperAsWritten(heap: Heap, setA: Set, setB: Set, destination: Set, key: string)
    returns (ghost lost: nat)
    requires heap.Valid() && Owns(setA.items, heap.cells) && Owns(setB.items, heap.cells)
    requires Owns(destination.items, heap.cells) && Unaliased(destination.items)
    requires destination != setA && destination != setB
    modifies heap, destination
    ensures heap.Valid() && Preserved(old(heap.cells), heap.cells)
    ensures Owns(destination.items, heap.cells) && Unaliased(destination.items)
    ensures Contents(destination.items, heap.cells)
         == Visit(old(Contents(destination.items, heap.cells)), key, old(Contents(setA.items, heap.cells)), old(Contents(setB.items, heap.cells)))
    ensures Grew(old(heap.cells), old(destination.items), heap.cells, destination.items, lost)
    ensures lost == if key in old(Contents(setA.items, heap.cells)) && key in old(Contents(setB.items, heap.cells))
                         && key in old(Contents(destination.items, heap.cells)) then 1 else 0
  {
    ghost var d0, c0 := destination.items, heap.cells;
    ghost var cell: nat := 0;
    lost := 0;
    var itemA := setA.Find(key);
    var itemB := setB.Find(key);
    if itemA != Null && itemB != Null {
      var copy := IntSave(heap, heap.Load(itemB));
      cell := copy.addr;
      var inserted := destination.Insert(key, copy);
      if !inserted {
        lost := 1;
      }
    }
    VisitCells(d0, c0, destination.items, heap.cells, setA.items, setB.items, key, cell, false, lost);
  }

  /** The state change one call of the helper makes, on values: the
      destination `d0` over heap `c0` becomes `d1` over `c1`. When both
      inputs hold the key, a fresh `cell` holding `b`'s int is made and
      stored under the key if the key is new; otherwise the cell is freed
      (`freed`) or left live, and `lost` counts it. When they do not,
      nothing changes. */
  ghost predicate VisitChange(d0: map<string, Ptr>, c0: map<nat, int>, d1: map<string, Ptr>, c1: map<nat, int>,
                              a: map<string, Ptr>, b: map<string, Ptr>, key: string, cell: nat, freed: bool, lost: nat)
    requires Owns(b, c0)
  {
    if key in a && key in b then
      cell !in c0 &&
      d1 == (if key in d0 then d0 else d0[key := Addr(cell)]) &&
      c1 == (if key in d0 && freed then c0 else c0[cell := c0[b[key].addr]]) &&
      lost == (if key in d0 && !freed then 1 else 0)
    else
      d1 == d0 && c1 == c0 && lost == 0
  }

  /** One call of the helper on values: the destination takes one `Visit`,
      its new entry (if any) holds a fresh cell, and the only other new
      live cell is the rejected copy when it is not freed. */
  lemma VisitCells(d0: map<string, Ptr>, c0: map<nat, int>, d1: map<string, Ptr>, c1: map<nat, int>,
                   a: map<string, Ptr>, b: map<string, Ptr>, key: string, cell: nat, freed: bool, lost: nat)
    requires Owns(a, c0) && Owns(b, c0) && Owns(d0, c0) && Unaliased(d0)
    requires VisitChange(d0, c0, d1, c1, a, b, key, cell, freed, lost)
    ensures Preserved(c0, c1)
    ensures Owns(d1, c1) && Unaliased(d1)
    ensures Contents(d1, c1) == Visit(Contents(d0, c0), key, Contents(a, c0), Contents(b, c0))
    ensures Grew(c0, d0, c1, d1, lost)
    ensures lost == if key in Contents(a, c0) && key in Contents(b, c0) && key in Contents(d0, c0) && !freed then 1 else 0
  {
    ContentsKeys(a, c0);
    ContentsKeys(b, c0);
    ContentsKeys(d0, c0);
    if key in a && key in b {
      if key !in d0 {
        InsertFreshCell(d0, c0, key, cell, c0[b[key].addr]);
      } else {
        ContentsPreserved(d0, c0, c1);
        assert key in Contents(d0, c0);
      }
    }
  }

  // ---------------------------------------------------------------------
  // set_iterate(s, data, set_intersect_helper)

  /** The state of a pass after the helper has visited the first `i` keys
      of `order`, on values: the heap keeps every cell it had (`cells0`),
      the destination owns its cells without aliasing and holds the `Pass`
      over the visited keys, and the destination has grown from `items0`
      with `lost` cells left live besides. */
  ghost predicate PassSoFar(cells0: map<nat, int>, items0: map<string, Ptr>, start: map<string, int>,
                            order: seq<string>, i: nat, a: map<string, int>, b: map<string, int>,
                            cells: map<nat, int>, items: map<string, Ptr>, lost: nat)
    requires i <= |order|
  {
    Preserved(cells0, cells) && Owns(items, cells) && Unaliased(items) &&
    Contents(items, cells) == Pass(start, order[..i], a, b) &&
    Grew(cells0, items0, cells, items, lost)
  }

  /** One more visit keeps the state of a pass. */
  lemma PassSoFarStep(cells0: map<nat, int>, items0: map<string, Ptr>, start: map<string, int>,
                      order: seq<string>, i: nat, a: map<string, int>, b: map<string, int>,
                      cells1: map<nat, int>, items1: map<string, Ptr>, lost1: nat,
                      cells2: map<nat, int>, items2: map<string, Ptr>, lost2: nat, lost: nat)
    requires i < |order| && lost == lost1 + lost2
    requires PassSoFar(cells0, items0, start, order, i, a, b, cells1, items1, lost1)
    requires Preserved(cells1, cells2) && Owns(items2, cells2) && Unaliased(items2)
    requires Contents(items2, cells2) == Visit(Contents(items1, cells1), order[i], a, b)
    requires Grew(cells1, items1, cells2, items2, lost2)
    ensures PassSoFar(cells0, items0, start, order, i + 1, a, b, cells2, items2, lost)
  {
    PassStep(start, order, i, a, b);
    GrewTrans(cells0, items0, cells1, items1, lost1, cells2, items2, lost2, lost);
  }

  /** The loop body of a pass with the corrected helper: one visit of the
      `i`-th key. */
  method VisitNext(heap: Heap, setA: Set, setB: Set, destination: Set,
                   ghost cells0: map<nat, int>, ghost items0: map<string, Ptr>, ghost start: map<string, int>,
                   order: seq<string>, i: nat, ghost a: map<string, int>, ghost b: map<string, int>)
    requires i < |order|
    requires heap.Valid() && Owns(setA.items, cells0) && Owns(setB.items, cells0)
    requires a == Contents(setA.items, cells0) && b == Contents(setB.items, cells0)
    requires destination != setA && destination != setB
    requires PassSoFar(cells0, items0, start, order, i, a, b, heap.cells, destination.items, 0)
    modifies heap, destination
    ensures heap.Valid()
    ensures PassSoFar(cells0, items0, start, order, i + 1, a, b, heap.cells, destination.items, 0)
  {
    ghost var cells1, items1 := heap.cells, destination.items;
    ContentsPreserved(setA.items, cells0, cells1);
    ContentsPreserved(setB.items, cells0, cells1);
    IntersectHelper(heap, setA, setB, destination, order[i]);
    PassSoFarStep(cells0, items0, start, order, i, a, b, cells1, items1, 0, heap.cells, destination.items, 0, 0);
  }

  /** set_iterate(s, data, set_intersect_helper) with the corrected
      helper, `keys` being the order in which set_iterate visits the keys of
      `s` (one of the two inputs): the destination takes one `Pass` over
      that order and gains a fresh cell for each entry it stores and no
      other live cell. */
  method IteratePass(heap: Heap, keys: seq<string>, setA: Set, setB: Set, destination: Set)
    requires heap.Valid() && Owns(setA.items, heap.cells) && Owns(setB.items, heap.cells)
    requires Owns(destination.items, heap.cells) && Unaliased(destination.items)
    requires destination != setA && destination != setB
    modifies heap, destination
    ensures heap.Valid() && Preserved(old(heap.cells), heap.cells)
    ensures Owns(destination.items, heap.cells) && Unaliased(destination.items)
    ensures Contents(destination.items, heap.cells)
         == Pass(old(Contents(destination.items, heap.cells)), keys, old(Contents(setA.items, heap.cells)), old(Contents(setB.items, heap.cells)))
    ensures Grew(old(heap.cells), old(destination.items), heap.cells, destination.items, 0)
  {
    ghost var cells0, items0 := heap.cells, destination.items;
    ghost var a, b := Contents(setA.items, cells0), Contents(setB.items, cells0);
    ghost var start := Contents(items0, cells0);
    var i := 0;
    assert keys[..0] == [];
    while i < |keys|
      invariant 0 <= i <= |keys|
      invariant heap.Valid()
      invariant PassSoFar(cells0, items0, start, keys, i, a, b, heap.cells, destination.items, 0)
    {
      VisitNext(heap, setA, setB, destination, cells0, items0, start, keys, i, a, b);
      i := i + 1;
    }
    assert keys[..|keys|] == keys;
  }

  /** The leak count after one more visit. */
  lemma LeakCountStep(start: map<string, int>, order: seq<string>, i: nat, a: map<string, int>, b: map<string, int>,
                      dest: map<string, int>, n: nat, lost: nat)
    requires i < |order|
    requires dest == Pass(start, order[..i], a, b) && n == Leaks(start, order[..i], a, b)
    requires lost == if order[i] in a && order[i] in b && order[i] in dest then 1 else 0
    ensures n + lost == Leaks(start, order[..i + 1], a, b)
  {
    LeaksStep(start, order, i, a, b);
  }

  /** The loop body of a pass with the helper as written: one visit of the
      `i`-th key, after which `n'` cells, as many as `Leaks` counts, have
      been left live. */
  method VisitNextAsWritten(heap: Heap, setA: Set, setB: Set, destination: Set,
                            ghost cells0: map<nat, int>, ghost items0: map<string, Ptr>, ghost start: map<string, int>,
                            order: seq<string>, i: nat, ghost a: map<string, int>, ghost b: map<string, int>, ghost n: nat)
    returns (ghost n': nat)
    requires i < |order|
    requires heap.Valid() && Owns(setA.items, cells0) && Owns(setB.items, cells0)
    requires a == Contents(setA.items, cells0) && b == Contents(setB.items, cells0)
    requires destination != setA && destination != setB
    requires PassSoFar(cells0, items0, start, order, i, a, b, heap.cells, destination.items, n)
    requires n == Leaks(start, order[..i], a, b)
    modifies heap, destination
    ensures heap.Valid()
    ensures PassSoFar(cells0, items0, start, order, i + 1, a, b, heap.cells, destination.items, n')
    ensures n' == Leaks(start, order[..i + 1], a, b)
  {
    ghost var cells1, items1 := heap.cells, destination.items;
    ContentsPreserved(setA.items, cells0, cells1);
    ContentsPreserved(setB.items, cells0, cells1);
    var lost := IntersectHelperAsWritten(heap, setA, setB, destination, order[i]);
    PassSoFarStep(cells0, items0, start, order, i, a, b, cells1, items1, n, heap.cells, destination.items, lost, n + lost);
    LeakCountStep(start, order, i, a, b, Contents(items1, cells1), n, lost);
    n' := n + lost;
  }

  /** set_iterate(s, data, set_intersect_helper) with the helper as
      written, over the order `keys`: the destination takes the same
      `Pass`, and `n` more cells, as many as `Leaks` counts, are left live
      without any set holding them. */
  method IteratePassAsWritten(heap: Heap, keys: seq<string>, setA: Set, setB: Set, destination: Set)
    returns (ghost n: nat)
    requires heap.Valid() && Owns(setA.items, heap.cells) && Owns(setB.items, heap.cells)
    requires Owns(destination.items, heap.cells) && Unaliased(destination.items)
    requires destination != setA && destination != setB
    modifies heap, destination
    ensures heap.Valid() && Preserved(old(heap.cells), heap.cells)
    ensures Owns(destination.items, heap.cells) && Unaliased(destination.items)
    ensures Contents(destination.items, heap.cells)
         == Pass(old(Contents(destination.items, heap.cells)), keys, old(Contents(setA.items, heap.cells)), old(Contents(setB.items, heap.cells)))
    ensures Grew(old(heap.cells), old(destination.items), heap.cells, destination.items, n)
    ensures n == Leaks(old(Contents(destination.items, heap.cells)), keys, old(Contents(setA.items, heap.cells)), old(Contents(setB.items, heap.cells)))
  {
    ghost var cells0, items0 := heap.cells, destination.items;
    ghost var a, b := Contents(setA.items, cells0), Contents(setB.items, cells0);
    ghost var start := Contents(items0, cells0);
    n := 0;
    var i := 0;
    assert keys[..0] == [];
    while i < |keys|
      invariant 0 <= i <= |keys|
      invariant heap.Valid()
      invariant PassSoFar(cells0, items0, start, keys, i, a, b, heap.cells, destination.items, n)
      invariant n == Leaks(start, keys[..i], a, b)
    {
      n := VisitNextAsWritten(heap, setA, setB, destination, cells0, items0, start, keys, i, a, b, n);
      i := i + 1;
    }
    assert keys[..|keys|] == keys;
  }

  // ---------------------------------------------------------------------
  // set_intersect

  /** set_intersect(setA, setB) with the corrected helper: a new set
      holding exactly the keys common to both inputs, each with a fresh
      copy of its int in `setB`. Both inputs keep what they hold, and the
      only new live cells are those the result holds. */
  method SetIntersect(heap: Heap, setA: Set, setB: Set) returns (result: Set)
    requires heap.Valid() && Owns(setA.items, heap.cells) && Owns(setB.items, heap.cells)
    modifies heap
    ensures fresh(result)
    ensures heap.Valid() && Preserved(old(heap.cells), heap.cells)
    ensures Contents(setA.items, heap.cells) == old(Contents(setA.items, heap.cells))
    ensures Contents(setB.items, heap.cells) == old(Contents(setB.items, heap.cells))
    ensures Owns(result.items, heap.cells) && Unaliased(result.items)
    ensures Contents(result.items, heap.cells) == Intersection(old(Contents(setA.items, heap.cells)), old(Contents(setB.items, heap.cells)))
    ensures Cells(result.items) !! Cells(setA.items) && Cells(result.items) !! Cells(setB.items)
    ensures Grew(old(heap.cells), map[], heap.cells, result.items, 0)
  {
    ghost var cells0 := heap.cells;
    ghost var a, b := Contents(setA.items, cells0), Contents(setB.items, cells0);
    result := new Set();
    var orderA := setA.Iterate();
    IteratePass(heap, orderA, setA, setB, result);
    ghost var cells1, items1 := heap.cells, result.items;
    ContentsPreserved(setA.items, cells0, cells1);
    ContentsPreserved(setB.items, cells0, cells1);
    var orderB := setB.Iterate();
    IteratePass(heap, orderB, setA, setB, result);
    ContentsPreserved(setA.items, cells0, heap.cells);
    ContentsPreserved(setB.items, cells0, heap.cells);
    TwoPassesAreIntersection(a, b, orderA, orderB);
    GrewTrans(cells0, map[], cells1, items1, 0, heap.cells, result.items, 0, 0);
    GrewApart(cells0, heap.cells, result.items, 0, setA.items);
    GrewApart(cells0, heap.cells, result.items, 0, setB.items);
  }

  /** set_intersect as written: the same result, but every common key
      leaks one copy in the pass over `setB`, so `lost`, the number of new
      live cells no set holds, equals the number of entries of the result. */
  method SetIntersectAsWritten(heap: Heap, setA: Set, setB: Set) returns (result: Set, ghost lost: nat)
    requires heap.Valid() && Owns(setA.items, heap.cells) && Owns(setB.items, heap.cells)
    modifies heap
    ensures fresh(result)
    ensures heap.Valid() && Preserved(old(heap.cells), heap.cells)
    ensures Contents(setA.items, heap.cells) == old(Contents(setA.items, heap.cells))
    ensures Contents(setB.items, heap.cells) == old(Contents(setB.items, heap.cells))
    ensures Owns(result.items, heap.cells) && Unaliased(result.items)
    ensures Contents(result.items, heap.cells) == Intersection(old(Contents(setA.items, heap.cells)), old(Contents(setB.items, heap.cells)))
    ensures Cells(result.items) !! Cells(setA.items) && Cells(result.items) !! Cells(setB.items)
    ensures Grew(old(heap.cells), map[], heap.cells, result.items, lost)
    ensures lost == |result.items|
  {
    ghost var cells0 := heap.cells;
    ghost var a, b := Contents(setA.items, cells0), Contents(setB.items, cells0);
    result := new Set();
    var orderA := setA.Iterate();
    var lostA := IteratePassAsWritten(heap, orderA, setA, setB, result);
    ghost var cells1, items1 := heap.cells, result.items;
    ContentsPreserved(setA.items, cells0, cells1);
    ContentsPreserved(setB.items, cells0, cells1);
    var orderB := setB.Iterate();
    var lostB := IteratePassAsWritten(heap, orderB, setA, setB, result);
    ContentsPreserved(setA.items, cells0, heap.cells);
    ContentsPreserved(setB.items, cells0, heap.cells);
    FirstPassIsIntersection(a, b, orderA);
    SecondPassIsNoop(a, b, orderB);
    FirstPassLeaksNothing(a, b, orderA);
    SecondPassLeaksAll(a, b, orderB);
    lost := lostA + lostB;
    GrewTrans(cells0, map[], cells1, items1, lostA, heap.cells, result.items, lostB, lost);
    GrewApart(cells0, heap.cells, result.items, lost, setA.items);
    GrewApart(cells0, heap.cells, result.items, lost, setB.items);
    ContentsKeys(result.items, heap.cells);
  }

  // ---------------------------------------------------------------------
  // set_delete(s, itemdelete)

  /** set_delete(s, itemdelete): itemdelete is called on the item of every
      key, in the order set_delete chooses. Every cell the set holds is
      live when it is freed (no two keys share one), exactly those cells
      are freed, and so the heap has one live cell fewer per entry. */
  method DeleteSet(heap: Heap, s: Set)
    requires heap.Valid() && Owns(s.items, heap.cells) && Unaliased(s.items)
    modifies heap
    ensures heap.Valid()
    ensures heap.cells == old(heap.cells) - Cells(s.items)
    ensures |heap.cells| + |s.items| == |old(heap.cells)|
  {
    ghost var cells0 := heap.cells;
    var keys := s.Iterate();
    var i := 0;
    while i < |keys|
      invariant 0 <= i <= |keys|
      invariant heap.Valid()
      invariant heap.cells == cells0 - CellsOf(s.items, Visited(keys, i, s.items.Keys))
      invariant |heap.cells| + i == |cells0|
    {
      var item := s.items[keys[i]];
      FreeStep(s.items, cells0, heap.cells, keys, i);
      ItemDelete(heap, item);
      i := i + 1;
    }
    VisitedAll(keys, s.items.Keys, s.items.Keys);
    EnumeratesSize(keys, s.items.Keys);
  }
}
