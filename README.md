# set_intersect in Dafny

This project models `set_intersect.c`, a test program for a simple string-keyed
set module. Its core is `set_intersect(setA, setB)`. It builds a new
destination set, then calls `set_iterate` first over `setA` and then over
`setB` with the callback `set_intersect_helper`. For each key it visits, the
callback looks the key up in both sets. When both lookups succeed, it inserts
into the destination a fresh heap copy (`intsave`) of the int held by `setB`.
`main` builds two sets of six colleges, intersects them as
`set_intersect(setB, setA)`, and deletes all three sets with `itemdelete`.

The model has five parts:

- `Memory` (memory.dfy) is the C allocator as the program uses it. The heap
  maps the address of each live int cell to its content. `Malloc` hands out a
  cell that was not live, and `Free` needs a live cell.
- `Sets` (sets.dfy) is the set module. Its source is not part of this model.
  `Set` is a class over a map from keys to item pointers. Its methods carry
  the contracts the program relies on, and they are assumptions about that
  module, not its code:
  - `Insert`: insert-if-absent that rejects NULL and reports whether it stored
    the item;
  - `Find`: the stored pointer or NULL;
  - `Iterate`: every key once, in an unspecified order.

  The module also holds `Contents` (a set as a value read through the heap),
  `Owns` and `Unaliased` (every item is a live cell of its own), and `Grew`
  (how a set and the heap grew together, counting live cells no set holds).
- `IntersectSpec` (intersect_spec.dfy) is the intersection on values:
  - `Visit`: one call of the helper;
  - `Pass`: one `set_iterate`, a fold of `Visit` over an order of keys;
  - `Intersection`: the reference definition;
  - `Leaks`: the count of copies the helper as written leaves live;
  - lemmas relating them.
- `SetIntersect` (set_intersect.dfy) holds `intsave`, `itemdelete`, the
  helper, the two iteration passes, `set_intersect` and `set_delete` with
  `itemdelete`. They are imperative methods on the heap and the sets, proved
  against `IntersectSpec`.
- `Scenario` (demo.dfy) is `main`. It builds the two sets, intersects them,
  reads the result and deletes all three sets. The heap starts empty, so the
  number of cells still live at the end is what the program leaks.

Each `set_iterate` is a `while` loop over the order that `Iterate` returns,
and the loop body is the callback. The callback's context struct is replaced
by passing the three sets directly.

The comment at set_intersect.c:63-65 ("Merge the second set into the first
set") disagrees with the code. It is left over from a merge routine, and the
model follows the code, which builds a new set holding the intersection.

`main` passes its `setA` as the second argument (set_intersect.c:53), so the
result is {Dartmouth=20, Princeton=5}, with setA's ints. The label printed
just before (set_intersect.c:52, "Intersect setA and setB") names the sets in
the other order than the call. With the arguments the other way round
(`Scenario.SwappedIntersection`) the same names would carry setB's ints,
Dartmouth=11 and Princeton=3.

`Find` returns the stored pointer or NULL, not an optional int, because the C
function returns a `void*` that the caller dereferences through the heap.

## Model

| member | source | states |
|---|---|---|
| Memory.Heap.Malloc | set_intersect.c:113 | malloc returns a cell that was not live, adds exactly that cell to the heap and leaves every other cell as it was |
| Memory.Heap.Store | set_intersect.c:114 | `*saved = item` changes the content of that one live cell only |
| Memory.Heap.Free | set_intersect.c:122 | free needs a live cell (a double free is excluded) and removes exactly that cell |
| Sets.Set.constructor | set_intersect.c:29-30 | set_new yields an empty set |
| Sets.Set.Insert | set_intersect.c:93 | set_insert stores the item exactly when it is not NULL and the key is absent, says whether it did, and leaves the set unchanged otherwise |
| Sets.Set.Find | set_intersect.c:90-91 | set_find yields the item stored under the key, or NULL when the key is absent |
| Sets.Set.Iterate | set_intersect.c:75-76 | set_iterate visits every key of the set exactly once, in an unspecified order |
| Sets.EnumeratesSize | set_intersect.c:58-60 | an iteration that visits every key once makes as many visits as the set has entries |
| Sets.ContentsPreserved | set_intersect.c:90-91 | a heap change that keeps every live cell keeps what an input set holds |
| Sets.InsertFreshCell | set_intersect.c:93 | storing a fresh cell under a new key keeps the set owning unshared cells and adds exactly that entry |
| Sets.GrewTrans | set_intersect.c:75-76 | two successive stretches of growth compose, with their leaked cells added up |
| Sets.GrewApart | set_intersect.c:110-116 | a set made only of cells allocated after another set's cells holds none of them |
| Sets.OwnsAfterFree | set_intersect.c:58-60 | freeing one set's cells leaves another set, whose cells are apart, live and unchanged |
| Sets.VisitedMembers | set_intersect.c:58-60 | the keys visited so far are exactly the keys occurring in the order's prefix |
| Sets.VisitedStep | set_intersect.c:58-60 | one more visit adds exactly the next key, which was not visited before |
| Sets.VisitedAll | set_intersect.c:58-60 | a whole iteration visits every key of the set |
| Sets.FreeStep | set_intersect.c:118-123 | in set_delete the next item is still live (no earlier key shared its cell), and freeing it frees exactly one more of the set's cells |
| IntersectSpec.RestrictStep | set_intersect.c:90-93 | one visit adds the visited key with setB's value exactly when both inputs hold it |
| IntersectSpec.PassShape | set_intersect.c:90-93 | starting from part of the intersection, a pass adds exactly the common keys it visits, each with its value in setB |
| IntersectSpec.PassKeys | set_intersect.c:90-93 | a pass adds exactly the visited keys that both inputs hold, whatever the destination held |
| IntersectSpec.FirstPassIsIntersection | set_intersect.c:75 | the pass over setA alone already yields the intersection |
| IntersectSpec.SecondPassIsNoop | set_intersect.c:76 | once the destination is the intersection, the pass over setB changes nothing, since every common key it visits is already present |
| IntersectSpec.TwoPassesAreIntersection | set_intersect.c:75-76 | the two passes from an empty destination yield the intersection, with values from setB |
| IntersectSpec.OrderIndependent | set_intersect.c:75-76 | the result is the same for any iteration order of either set |
| IntersectSpec.EmptyInputGivesEmpty | set_intersect.c:75-76 | if either input is empty, the result is empty |
| IntersectSpec.IntersectionMeaning | set_intersect.c:90-93 | a key is in the result exactly when both inputs hold it, and it carries setB's value, never setA's |
| IntersectSpec.LeaksCount | set_intersect.c:92-93 | over an iteration that visits each key once, the leaked copies are the common keys the destination held before the pass |
| IntersectSpec.FirstPassLeaksNothing | set_intersect.c:75 | the pass over setA starts from an empty destination and leaks nothing |
| IntersectSpec.SecondPassLeaksAll | set_intersect.c:76 | the pass over setB leaks one copy for every key of the intersection |
| SetIntersect.IntSave | set_intersect.c:110-116 | intsave returns a cell that was not live and now holds the int, and changes no other cell |
| SetIntersect.ItemDelete | set_intersect.c:118-123 | itemdelete frees exactly the given cell, and does nothing for NULL |
| SetIntersect.InsertSaved | set_intersect.c:93 | set_insert(s, key, intsave(v)) inserts v if the key is absent; a rejected copy stays live, held by no set, and is counted as lost |
| SetIntersect.IntersectHelper | set_intersect.c:83-94 | the helper with the rejected copy freed: the destination takes one Visit (setB's value when both sets hold the key), the inputs are untouched, and no cell is lost |
| SetIntersect.IntersectHelperAsWritten | set_intersect.c:83-94 | the helper as written: the same Visit, and one cell is lost exactly when both sets and the destination already hold the key |
| SetIntersect.VisitCells | set_intersect.c:90-93 | the heap change of one helper call, on values: a fresh cell when the key is new, and the Visit on contents |
| SetIntersect.PassSoFarStep | set_intersect.c:75-76 | the state of a pass after i visits extends to i + 1 visits |
| SetIntersect.VisitNext | set_intersect.c:83-94 | the loop body of a pass (one callback) keeps the pass state with no cell lost |
| SetIntersect.IteratePass | set_intersect.c:75-76 | one set_iterate with the corrected helper: the destination takes a Pass over the visiting order, and the only new live cells are its new entries |
| SetIntersect.VisitNextAsWritten | set_intersect.c:83-94 | the loop body of a pass as written keeps the pass state, with as many cells lost as Leaks counts |
| SetIntersect.IteratePassAsWritten | set_intersect.c:75-76 | one set_iterate as written: the same Pass, and exactly Leaks cells left live that no set holds |
| SetIntersect.SetIntersect | set_intersect.c:66-79 | set_intersect with the corrected helper returns a new set that holds exactly the intersection, with setB's values in fresh cells that neither input holds; both inputs keep their contents, and no other cell becomes live |
| SetIntersect.SetIntersectAsWritten | set_intersect.c:66-79 | set_intersect as written returns the same set, but leaves as many unreachable cells live as the result has entries |
| SetIntersect.DeleteSet | set_intersect.c:58-60 | set_delete(s, itemdelete) frees exactly the cells the set holds, each while it is still live, so the heap loses one cell per entry |
| Scenario.MainIntersection | set_intersect.c:53 | main's set_intersect(setB, setA) is {Dartmouth=20, Princeton=5}, with setA's values |
| Scenario.SwappedIntersection | set_intersect.c:53 | with the arguments swapped the same keys would carry setB's values, 11 and 3 |
| Scenario.InsertNew | set_intersect.c:33-48 | inserting a new name adds its entry and one fresh cell, and nothing else becomes live |
| Scenario.BuildMainSetA | set_intersect.c:33-38 | building setA yields exactly main's six entries, in cells that were not live before |
| Scenario.BuildMainSetB | set_intersect.c:43-48 | building setB yields exactly main's six entries, in cells that were not live before |
| Scenario.BuildMainSets | set_intersect.c:29-48 | main's two sets hold exactly its entries, in cells that are apart, and they are all the live cells |
| Scenario.DeleteAll | set_intersect.c:58-60 | the three set_delete calls free exactly the three sets' cells, each once |
| Scenario.Demo | set_intersect.c:25-61 | main with the corrected helper computes {Dartmouth=20, Princeton=5} and ends with no live cell |
| Scenario.DemoAsWritten | set_intersect.c:25-61 | main as written computes the same intersection and ends with two live cells, the two copies leaked in the second pass |

## Left out

- The set module's internals (set.h). `Sets.Set` stands in for them with
  assumed contracts, and the set's own storage, which set_delete also
  releases, is not modelled.
- Printing: set_print, itemprint, printf, putchar and fprintf
  (set_intersect.c:32, 39-54, 98-108). This is stream output with no effect on
  the sets.
- Allocation failure (set_intersect.c:29-30, 68, 69, 113). Through assertp
  the program exits on it. The set_new at line 68 is not checked at all. The
  model treats every allocation as succeeding.
- The callback context struct and its malloc (set_intersect.c:19-23, 69-73,
  85-88). It passes the three sets to the callback, and the model's loops name
  them directly. Its allocation is never freed, so the program leaks it once
  per call; this leak is not counted in the model's live cells.
- `void*` item typing. Items are modelled as int cells only.
- The order in which set_iterate and set_delete visit keys. It is an
  arbitrary order with each key once; every result above holds for every
  such order.
- The copy of each key string that set_insert may make. Keys are values in
  the model.

## Findings

| source | as written | input that shows it | evidently intended | confidence | as-written member | corrected member |
|---|---|---|---|---|---|---|
| set_intersect.c:76, 92-93 | the helper passes `intsave(*itemB)` to set_insert and ignores the result; when the key is already in the destination, which happens for every common key in the pass over setB, set_insert rejects the copy and nobody frees it | main's data: the second pass visits Dartmouth and Princeton, both already in the result, so two cells remain live after all three sets are deleted | free the copy when set_insert rejects it (or make only one pass), so that deleting the three sets frees every cell | not executed | SetIntersect.IntersectHelperAsWritten, SetIntersect.SetIntersectAsWritten, Scenario.DemoAsWritten | SetIntersect.IntersectHelper, SetIntersect.SetIntersect, Scenario.Demo |
