/**
 The set module (set.h) that set_intersect.c is a client of. Its source is
 not part of this model: the class below is a stand-in holding a map from
 string keys to item pointers, and its contracts are the interface that
 set_intersect.c relies on, namely insert-if-absent that rejects a NULL item,
 find that yields the stored pointer or NULL, and iteration over every key
 once in an unspecified order. The bodies only make those contracts
 concrete; they are not the module's hash table or list.

 What a set holds (`Contents`), the cells it owns (`Owns`, `Cells`) and
 that no two keys share a cell (`Unaliased`) are functions of its entries
 and the heap, so that facts about one insertion or one allocation are lemmas about
 values.
 */
module Sets {
  import opened Memory

  class Set {
    /** The entries: key to the item pointer stored for it. */
    var items: map<string, Ptr>

    /** set_new(): an empty set. */
    constructor ()
      ensures items == map[]
    {
      items := map[];
    }

    /** set_insert(set, key, item): stores `item` under `key` only when the
        key is absent and the item is not NULL; reports whether it did. A
        rejected item is not stored and stays the caller's to free. */
    method Insert(key: string, item: Ptr) returns (inserted: bool)
      modifies this
      ensures inserted <==> item != Null && key !in old(items)
      ensures items == if inserted then old(items)[key := item] else old(items)
    {
      inserted := item != Null && key !in items;
      if inserted {
        items := items[key := item];
      }
    }

    /** set_find(set, key): the item stored under `key`, or NULL. */
    method Find(key: string) returns (item: Ptr)
      ensures key in items ==> item == items[key]
      ensures key !in items ==> item == Null
    {
      item := if key in items then items[key] else Null;
    }

    /** The order in which set_iterate (and set_delete) visit the entries:
        every key exactly once, in an order the module does not specify.
        The caller's loop over this order plays the role of the callback. */
    method Iterate() returns (order: seq<string>)
      ensures Enumerates(order, items.Keys)
    {
      order := [];
      var rest := items.Keys;
      while rest != {}
        invariant rest <= items.Keys
        invariant forall k :: k in order <==> k in items && k !in rest
        invariant forall i, j :: 0 <= i < j < |order| ==> order[i] != order[j]
        decreases |rest|
      {
        var k :| k in rest;
        order := order + [k];
        rest := rest - {k};
      }
    }
  }

  /** `order` lists every key of `keys` exactly once. */
  ghost predicate Enumerates(order: seq<string>, keys: set<string>)
  {
    (forall k :: k in order <==> k in keys) &&
    (forall i, j :: 0 <= i < j < |order| ==> order[i] != order[j])
  }

  /** An order that lists every key once is as long as the key set is large. */
  lemma {:induction false} EnumeratesSize(order: seq<string>, keys: set<string>)
    requires Enumerates(order, keys)
    ensures |order| == |keys|
    decreases |order|
  {
    if order != [] {
      var n := |order| - 1;
      var last := order[n];
      assert Enumerates(order[..n], keys - {last}) by {
        forall k
          ensures k in order[..n] <==> k in keys - {last}
        {
          if k in order[..n] {
            var p :| 0 <= p < n && order[p] == k;
          }
          if k in keys - {last} {
            var p :| 0 <= p < |order| && order[p] == k;
            assert p != n;
          }
        }
      }
      EnumeratesSize(order[..n], keys - {last});
    }
  }

  /** Every stored item is a live, non-NULL cell of `cells`. */
  ghost predicate Owns(items: map<string, Ptr>, cells: map<nat, int>)
  {
    forall k :: k in items ==> items[k].Addr? && items[k].addr in cells
  }

  /** No two keys share one cell. */
  ghost predicate Unaliased(items: map<string, Ptr>)
  {
    forall k, j :: k in items && j in items && k != j ==> items[k] != items[j]
  }

  /** The addresses of the non-NULL items stored under the keys in `keys`. */
  ghost function CellsOf(items: map<string, Ptr>, keys: set<string>): set<nat>
  {
    set k | k in keys && k in items && items[k].Addr? :: items[k].addr
  }

  /** The addresses of all cells the set holds. */
  ghost function Cells(items: map<string, Ptr>): set<nat>
  {
    CellsOf(items, items.Keys)
  }

  /** The ints the set holds, read through its item pointers. */
  function Contents(items: map<string, Ptr>, cells: map<nat, int>): map<string, int>
    requires Owns(items, cells)
  {
    map k | k in items :: cells[items[k].addr]
  }

  /** A set's contents have the set's keys. */
  lemma ContentsKeys(items: map<string, Ptr>, cells: map<nat, int>)
    requires Owns(items, cells)
    ensures Contents(items, cells).Keys == items.Keys
  {
  }

  /** A heap change that keeps every live cell intact keeps what a set
      holds. */
  lemma ContentsPreserved(items: map<string, Ptr>, before: map<nat, int>, after: map<nat, int>)
    requires Owns(items, before) && Preserved(before, after)
    ensures Owns(items, after) && Contents(items, after) == Contents(items, before)
  {
  }

  /** Storing a fresh cell holding `v` under a new key: the set keeps
      owning its cells without aliasing and gains the entry `key := v`. */
  lemma InsertFreshCell(items: map<string, Ptr>, cells: map<nat, int>, key: string, cell: nat, v: int)
    requires Owns(items, cells) && Unaliased(items)
    requires key !in items && cell !in cells
    ensures Owns(items[key := Addr(cell)], cells[cell := v])
    ensures Unaliased(items[key := Addr(cell)])
    ensures Contents(items[key := Addr(cell)], cells[cell := v]) == Contents(items, cells)[key := v]
  {
  }

  /** Since the heap was `cells0` and the set held `items0`: the set kept
      every entry it had, each new entry holds a cell that was not live in
      `cells0`, and the number of live cells grew by one for each new entry
      and by `lost` more. */
  ghost predicate Grew(cells0: map<nat, int>, items0: map<string, Ptr>, cells: map<nat, int>, items: map<string, Ptr>, lost: nat)
  {
    (forall k :: k in items0 ==> k in items && items[k] == items0[k]) &&
    (forall k :: k in items && k !in items0 ==> items[k].Addr? && items[k].addr !in cells0) &&
    |cells| + |items0| == |cells0| + |items| + lost
  }

  /** Two growth steps over a heap that keeps its cells make one. */
  lemma GrewTrans(cells0: map<nat, int>, items0: map<string, Ptr>,
                  cells1: map<nat, int>, items1: map<string, Ptr>, lost1: nat,
                  cells2: map<nat, int>, items2: map<string, Ptr>, lost2: nat, lost: nat)
    requires Preserved(cells0, cells1) && lost == lost1 + lost2
    requires Grew(cells0, items0, cells1, items1, lost1)
    requires Grew(cells1, items1, cells2, items2, lost2)
    ensures Grew(cells0, items0, cells2, items2, lost)
  {
  }

  /** A set that grew from empty since `cells0`: the heap has one more
      live cell for each of its entries and `lost` more. */
  lemma GrewCount(cells0: map<nat, int>, cells: map<nat, int>, items: map<string, Ptr>, lost: nat)
    requires Grew(cells0, map[], cells, items, lost)
    ensures |cells| == |cells0| + |items| + lost
  {
  }

  /** A set that grew from empty since `cells0` holds none of the cells of
      a set that owned its cells in `cells0`. */
  lemma GrewApart(cells0: map<nat, int>, cells: map<nat, int>, items: map<string, Ptr>, lost: nat, other: map<string, Ptr>)
    requires Grew(cells0, map[], cells, items, lost) && Owns(other, cells0)
    ensures Cells(items) !! Cells(other)
  {
  }

  /** Freeing cells a set does not hold leaves it owning its cells. */
  lemma OwnsAfterFree(items: map<string, Ptr>, cells: map<nat, int>, gone: set<nat>)
    requires Owns(items, cells) && Cells(items) !! gone
    ensures Owns(items, cells - gone) && Contents(items, cells - gone) == Contents(items, cells)
  {
    forall k | k in items
      ensures items[k].addr in cells - gone
    {
      assert items[k].addr in Cells(items);
    }
  }

  /** The keys of `c` among the first `i` keys of an iteration order. */
  ghost function Visited(order: seq<string>, i: nat, c: set<string>): set<string>
    requires i <= |order|
    decreases i
  {
    if i == 0 then {} else Visited(order, i - 1, c) + (if order[i - 1] in c then {order[i - 1]} else {})
  }

  /** `Visited` holds exactly the keys of `c` that occur among the first
      `i` keys of the order. */
  lemma {:induction false} VisitedMembers(order: seq<string>, i: nat, c: set<string>, k: string)
    requires i <= |order|
    ensures k in Visited(order, i, c) <==> k in c && exists p :: 0 <= p < i && order[p] == k
    decreases i
  {
    if i > 0 {
      VisitedMembers(order, i - 1, c, k);
    }
  }

  /** Visiting one more key of an order without repetitions adds it, and
      only it, exactly when it belongs to `c`. */
  lemma VisitedStep(order: seq<string>, i: nat, c: set<string>)
    requires i < |order|
    requires forall p, q :: 0 <= p < q < |order| ==> order[p] != order[q]
    ensures order[i] !in Visited(order, i, c)
    ensures Visited(order, i + 1, c) == Visited(order, i, c) + (if order[i] in c then {order[i]} else {})
  {
    VisitedMembers(order, i, c, order[i]);
  }

  /** A whole order of the keys `keys` visits exactly those keys. */
  lemma VisitedAll(order: seq<string>, keys: set<string>, c: set<string>)
    requires forall k :: k in order <==> k in keys
    ensures Visited(order, |order|, c) == keys * c
  {
    forall k
      ensures k in Visited(order, |order|, c) <==> k in keys * c
    {
      VisitedMembers(order, |order|, c, k);
      if k in keys * c {
        var p :| 0 <= p < |order| && order[p] == k;
      }
    }
  }

  /** One step of set_delete with a callback that frees each item: the
      item of the next key is live (no earlier key shared its cell), and
      freeing it extends the freed cells by exactly that one. */
  lemma FreeStep(items: map<string, Ptr>, cells0: map<nat, int>, cells: map<nat, int>, order: seq<string>, i: nat)
    requires Owns(items, cells0) && Unaliased(items)
    requires i < |order| && order[i] in items
    requires forall p, q :: 0 <= p < q < |order| ==> order[p] != order[q]
    requires cells == cells0 - CellsOf(items, Visited(order, i, items.Keys))
    ensures items[order[i]].addr in cells
    ensures cells - {items[order[i]].addr} == cells0 - CellsOf(items, Visited(order, i + 1, items.Keys))
  {
    var key := order[i];
    VisitedStep(order, i, items.Keys);
    var before := Visited(order, i, items.Keys);
    assert CellsOf(items, Visited(order, i + 1, items.Keys)) == CellsOf(items, before) + {items[key].addr};
    assert items[key].addr !in CellsOf(items, before);
  }
}
