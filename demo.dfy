/**
 The scenario of main in set_intersect.c: two sets of six colleges, each
 name with a new int cell, their intersection with the sets passed as
 (setB, setA), and the deletion of all three sets with itemdelete. The
 heap starts empty, so what is live at the end is exactly what the program
 leaks.
 */
module Scenario {
  import opened Memory
  import opened Sets
  import opened IntersectSpec
  import opened SetIntersect

  /** What main inserts into setA. */
  function MainSetA(): map<string, int>
  {
    map["Brown" := 10, "Dartmouth" := 20, "Yale" := 15, "Harvard" := 8, "Princeton" := 5, "Columbia" := 1]
  }

  /** What main inserts into setB. */
  function MainSetB(): map<string, int>
  {
    map["Penn" := 7, "Dartmouth" := 11, "Cornell" := 9, "Stanford" := 6, "Princeton" := 3, "Duke" := 12]
  }

  /** set_intersect(setB, setA) takes each value from its second argument,
      main's setA: the two common names with the ints setA gave them. */
  lemma MainIntersection()
    ensures Intersection(MainSetB(), MainSetA()) == map["Dartmouth" := 20, "Princeton" := 5]
  {
    var r := Intersection(MainSetB(), MainSetA());
    assert r.Keys == {"Dartmouth", "Princeton"};
  }

  /** With the arguments the other way round the same names would carry
      setB's ints instead. */
  lemma SwappedIntersection()
    ensures Intersection(MainSetA(), MainSetB()) == map["Dartmouth" := 11, "Princeton" := 3]
  {
    var r := Intersection(MainSetA(), MainSetB());
    assert r.Keys == {"Dartmouth", "Princeton"};
  }

  /** A set holding the intersection of main's sets has two entries. */
  lemma TwoEntries(items: map<string, Ptr>, cells: map<nat, int>)
    requires Owns(items, cells) && Contents(items, cells) == map["Dartmouth" := 20, "Princeton" := 5]
    ensures |items| == 2
  {
    ContentsKeys(items, cells);
    assert items.Keys == {"Dartmouth", "Princeton"};
  }

  /** One set_insert(s, key, intsave(v)) of main, for a key not yet in the
      set: the set gains the entry and its new cell, and nothing else
      becomes live. */
  method InsertNew(heap: Heap, s: Set, key: string, v: int,
                   ghost cells0: map<nat, int>, ghost m: map<string, int>)
    requires heap.Valid() && Owns(s.items, heap.cells) && Unaliased(s.items)
    requires Contents(s.items, heap.cells) == m && key !in m
    requires Preserved(cells0, heap.cells) && Grew(cells0, map[], heap.cells, s.items, 0)
    modifies heap, s
    ensures heap.Valid() && Owns(s.items, heap.cells) && Unaliased(s.items)
    ensures Contents(s.items, heap.cells) == m[key := v]
    ensures Preserved(cells0, heap.cells) && Grew(cells0, map[], heap.cells, s.items, 0)
  {
    ghost var cells1, items1 := heap.cells, s.items;
    ContentsKeys(s.items, heap.cells);
    var inserted := InsertSaved(heap, s, key, v);
    GrewTrans(cells0, map[], cells1, items1, 0, heap.cells, s.items, 0, 0);
  }

  /** Each name main inserts is new to its set. */
  lemma NamesNew()
    ensures "Dartmouth" !in map["Brown" := 10]
    ensures "Yale" !in map["Brown" := 10, "Dartmouth" := 20]
    ensures "Harvard" !in map["Brown" := 10, "Dartmouth" := 20, "Yale" := 15]
    ensures "Princeton" !in map["Brown" := 10, "Dartmouth" := 20, "Yale" := 15, "Harvard" := 8]
    ensures "Columbia" !in map["Brown" := 10, "Dartmouth" := 20, "Yale" := 15, "Harvard" := 8, "Princeton" := 5]
    ensures "Dartmouth" !in map["Penn" := 7]
    ensures "Cornell" !in map["Penn" := 7, "Dartmouth" := 11]
    ensures "Stanford" !in map["Penn" := 7, "Dartmouth" := 11, "Cornell" := 9]
    ensures "Princeton" !in map["Penn" := 7, "Dartmouth" := 11, "Cornell" := 9, "Stanford" := 6]
    ensures "Duke" !in map["Penn" := 7, "Dartmouth" := 11, "Cornell" := 9, "Stanford" := 6, "Princeton" := 3]
  {
  }

  /** Building setA: set_new and six set_insert calls. */
  method BuildMainSetA(heap: Heap) returns (s: Set)
    requires heap.Valid()
    modifies heap
    ensures fresh(s)
    ensures heap.Valid() && Owns(s.items, heap.cells) && Unaliased(s.items)
    ensures Contents(s.items, heap.cells) == MainSetA()
    ensures Preserved(old(heap.cells), heap.cells) && Grew(old(heap.cells), map[], heap.cells, s.items, 0)
  {
    ghost var cells0 := heap.cells;
    s := new Set();
    NamesNew();
    InsertNew(heap, s, "Brown", 10, cells0, map[]);
    InsertNew(heap, s, "Dartmouth", 20, cells0, map["Brown" := 10]);
    InsertNew(heap, s, "Yale", 15, cells0, map["Brown" := 10, "Dartmouth" := 20]);
    InsertNew(heap, s, "Harvard", 8, cells0, map["Brown" := 10, "Dartmouth" := 20, "Yale" := 15]);
    InsertNew(heap, s, "Princeton", 5, cells0, map["Brown" := 10, "Dartmouth" := 20, "Yale" := 15, "Harvard" := 8]);
    InsertNew(heap, s, "Columbia", 1, cells0,
              map["Brown" := 10, "Dartmouth" := 20, "Yale" := 15, "Harvard" := 8, "Princeton" := 5]);
  }

  /** Building setB: set_new and six set_insert calls. */
  method BuildMainSetB(heap: Heap) returns (s: Set)
    requires heap.Valid()
    modifies heap
    ensures fresh(s)
    ensures heap.Valid() && Owns(s.items, heap.cells) && Unaliased(s.items)
    ensures Contents(s.items, heap.cells) == MainSetB()
    ensures Preserved(old(heap.cells), heap.cells) && Grew(old(heap.cells), map[], heap.cells, s.items, 0)
  {
    ghost var cells0 := heap.cells;
    s := new Set();
    NamesNew();
    InsertNew(heap, s, "Penn", 7, cells0, map[]);
    InsertNew(heap, s, "Dartmouth", 11, cells0, map["Penn" := 7]);
    InsertNew(heap, s, "Cornell", 9, cells0, map["Penn" := 7, "Dartmouth" := 11]);
    InsertNew(heap, s, "Stanford", 6, cells0, map["Penn" := 7, "Dartmouth" := 11, "Cornell" := 9]);
    InsertNew(heap, s, "Princeton", 3, cells0, map["Penn" := 7, "Dartmouth" := 11, "Cornell" := 9, "Stanford" := 6]);
    InsertNew(heap, s, "Duke", 12, cells0,
              map["Penn" := 7, "Dartmouth" := 11, "Cornell" := 9, "Stanford" := 6, "Princeton" := 3]);
  }

  /** The two sets of main, built from an empty heap: their entries are
      main's, their cells are apart, and they are all the live cells. */
  method BuildMainSets(heap: Heap) returns (setA: Set, setB: Set)
    requires heap.Valid() && heap.cells == map[]
    modifies heap
    ensures fresh(setA) && fresh(setB)
    ensures heap.Valid()
    ensures Owns(setA.items, heap.cells) && Unaliased(setA.items) && Contents(setA.items, heap.cells) == MainSetA()
    ensures Owns(setB.items, heap.cells) && Unaliased(setB.items) && Contents(setB.items, heap.cells) == MainSetB()
    ensures Cells(setA.items) !! Cells(setB.items)
    ensures |heap.cells| == |setA.items| + |setB.items|
  {
    setA := BuildMainSetA(heap);
    ghost var cellsA := heap.cells;
    setB := BuildMainSetB(heap);
    ContentsPreserved(setA.items, cellsA, heap.cells);
    GrewApart(cellsA, heap.cells, setB.items, 0, setA.items);
    GrewCount(map[], cellsA, setA.items, 0);
    GrewCount(cellsA, heap.cells, setB.items, 0);
  }

  /** The three set_delete(s, itemdelete) calls at the end of main, on sets
      whose cells are pairwise apart: exactly their cells are freed. */
  method DeleteAll(heap: Heap, setA: Set, setB: Set, result: Set)
    requires heap.Valid()
    requires Owns(setA.items, heap.cells) && Unaliased(setA.items)
    requires Owns(setB.items, heap.cells) && Unaliased(setB.items)
    requires Owns(result.items, heap.cells) && Unaliased(result.items)
    requires Cells(setA.items) !! Cells(setB.items) && Cells(setA.items) !! Cells(result.items)
    requires Cells(setB.items) !! Cells(result.items)
    modifies heap
    ensures heap.Valid()
    ensures heap.cells == old(heap.cells) - Cells(setA.items) - Cells(setB.items) - Cells(result.items)
    ensures |heap.cells| + |setA.items| + |setB.items| + |result.items| == |old(heap.cells)|
  {
    ghost var cells0 := heap.cells;
    DeleteSet(heap, setA);
    OwnsAfterFree(setB.items, cells0, Cells(setA.items));
    OwnsAfterFree(result.items, cells0, Cells(setA.items));
    DeleteSet(heap, setB);
    OwnsAfterFree(result.items, cells0 - Cells(setA.items), Cells(setB.items));
    DeleteSet(heap, result);
  }

  /** main with the corrected helper: the result of set_intersect(setB,
      setA), read before it is deleted, and the number of cells still live
      once all three sets are deleted, which is none. */
  method Demo() returns (intersection: map<string, int>, live: nat)
    ensures intersection == map["Dartmouth" := 20, "Princeton" := 5]
    ensures live == 0
  {
    var heap := new Heap();
    var setA, setB := BuildMainSets(heap);
    ghost var cells0 := heap.cells;
    var result := SetIntersect.SetIntersect(heap, setB, setA);
    ContentsPreserved(setA.items, cells0, heap.cells);
    ContentsPreserved(setB.items, cells0, heap.cells);
    GrewCount(cells0, heap.cells, result.items, 0);
    MainIntersection();
    intersection := Contents(result.items, heap.cells);
    DeleteAll(heap, setA, setB, result);
    live := |heap.cells|;
  }

  /** main as written: the same intersection, but the second pass leaks
      one copy for each of the two common names, and those two cells are
      still live after all three sets are deleted. */
  method DemoAsWritten() returns (intersection: map<string, int>, live: nat)
    ensures intersection == map["Dartmouth" := 20, "Princeton" := 5]
    ensures live == 2
  {
    var heap := new Heap();
    var setA, setB := BuildMainSets(heap);
    ghost var cells0 := heap.cells;
    var result, lost := SetIntersectAsWritten(heap, setB, setA);
    ContentsPreserved(setA.items, cells0, heap.cells);
    ContentsPreserved(setB.items, cells0, heap.cells);
    GrewCount(cells0, heap.cells, result.items, lost);
    MainIntersection();
    intersection := Contents(result.items, heap.cells);
    TwoEntries(result.items, heap.cells);
    DeleteAll(heap, setA, setB, result);
    live := |heap.cells|;
  }
}
