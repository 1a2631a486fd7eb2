/**
 This module stands in for the C allocator (malloc/free) as set_intersect.c
 uses it: every allocation is one int cell. The heap is the map from the
 address of each live cell to the int it holds; an address is in the map
 from malloc until free. Allocation never fails (an allocation failure is
 fatal in the program and is not modelled).
 */
module Memory {

  /** A pointer to an int cell, or NULL. */
  datatype Ptr = Null | Addr(addr: nat)

  /** The submap relation on heaps: every cell live in `before` is still
      live in `after` and holds the same int. */
  ghost predicate Preserved(before: map<nat, int>, after: map<nat, int>)
  {
    forall a :: a in before ==> a in after && after[a] == before[a]
  }

  class Heap {
    /** The live cells and their contents. */
    var cells: map<nat, int>
    /** The next address the allocator hands out. */
    var next: nat

    ghost predicate Valid()
      reads this
    {
      forall a :: a in cells ==> a < next
    }

    /** True when `p` points to a live cell. */
    predicate Live(p: Ptr)
      reads this
    {
      p.Addr? && p.addr in cells
    }

    /** `*p`: the int a live cell holds. */
    function Load(p: Ptr): int
      reads this
      requires Live(p)
    {
      cells[p.addr]
    }

    constructor ()
      ensures Valid() && cells == map[]
    {
      cells := map[];
      next := 0;
    }

    /** malloc(sizeof(int)): a cell that was not live before; its
        initial content is unspecified. */
    method Malloc() returns (p: Ptr)
      requires Valid()
      modifies this
      ensures Valid()
      ensures p.Addr? && p.addr !in old(cells)
      ensures cells.Keys == old(cells.Keys) + {p.addr}
      ensures Preserved(old(cells), cells)
    {
      p := Addr(next);
      cells := cells[next := 0];
      next := next + 1;
    }

    /** `*p = v` on a live cell. */
    method Store(p: Ptr, v: int)
      requires Valid() && Live(p)
      modifies this
      ensures Valid()
      ensures cells == old(cells)[p.addr := v]
    {
      cells := cells[p.addr := v];
    }

    /** free(p): the caller must pass a live cell (a second free of the
        same cell is undefined behaviour in C, so it is excluded here). */
    method Free(p: Ptr)
      requires Valid() && Live(p)
      modifies this
      ensures Valid()
      ensures cells == old(cells) - {p.addr}
    {
      cells := cells - {p.addr};
    }
  }
}
