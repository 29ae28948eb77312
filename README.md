# Sorted linked list — a verified Dafny model

This project models the PHP library `SortedLinkedList`. The library is a singly-linked list that keeps its values in ascending order. It holds either integers or strings, never both. The list locks on the kind of the first value added and stays locked until `clear()`.

The model has five modules:

- `Element` (`element.dfy`) holds the values and their order.
  - An `Elem` is `IntE(i)` or `StrE(s)`, the `string|int` union of the source.
  - `Compare` is the spaceship operator `<=>` that the list uses everywhere.
  - The lemmas prove that `Compare` is a total order. Its zero is exactly equality, and on strings it is dictionary order by character code (`StrCompareLex`).
- `Node` (`node.dfy`) models the immutable `Node` cell.
  - A chain of cells is the datatype `Chain = Nil | Cons(value, next := Nil)`. `Nil` is `null`.
  - Because a chain is a value, a cell can never be relinked and every chain is finite.
- `SortedSeq` (`sorted_seq.dfy`) is the abstract view: a sequence of elements.
  - It defines what each list operation does to that sequence: `Insert`, `Delete`, the fold `BuildSorted`, `MergeSorted` and `FilterSeq`.
  - It proves what the library promises about them:
    - sortedness is kept;
    - nothing is lost or invented (multiset equalities);
    - the insertion point is the one `add` uses;
    - only the first equal value is removed;
    - the final order does not depend on the order of insertion;
    - `merge` is the sorted merge of the two lists;
    - `filter` keeps exactly the matching elements, in order.
- `Text` (`text.dfy`) models `__toString`.
  - Integers are written in decimal, and the decimal form reads back to the same integer.
  - Strings are written between double quotes.
  - Elements are joined by `", "` inside brackets.
- `SortedList` (`sorted_linked_list.dfy`) models the class.
  - `SortedLinkedList` has the three mutable fields of the source: `head`, `size` and `kind` (the source's `type`).
  - Its methods keep `Valid()`:
    - the contents are sorted;
    - `size` counts them;
    - while a kind is locked, every element has that kind.
  - The methods that change the list or build a new one (`Add`, `Remove`, `RemoveFirst`, `AddAll`, `FromArray`, `Merge`, `Filter`) are proved against the functions of `SortedSeq`.
  - The queries (`Contains`, `Get`, `First`, `Last`, `ToArray`, `IsEmpty`, `Count`) are specified against `Contents()`, the values of the chain front to back, and `ToString` against `Text.Render`.
  - The walks of `add` and `remove` that collect values into an array are loops with invariants (`InsertWalk`, `DeleteWalk`).
  - `rebuildFromArray` rebuilds the chain backwards with a loop, as the source does.

`Scenarios` (`scenarios.dfy`) states concrete runs taken from the library's tests.

Exceptions become results:

- `InvalidArgumentException` becomes `TypeMismatch`.
- `OutOfRangeException` becomes `IndexOutOfRange`.
- `RuntimeException("List is empty")` becomes `EmptyContainer`.

## Model

| member | source | states |
|---|---|---|
| Element.StrCompare | src/SortedLinkedList.php:352-355 | `<=>` on two strings is -1, 0 or 1, and 0 only for strings of equal length |
| Element.Compare | src/SortedLinkedList.php:352-355 | `<=>` is -1, 0 or 1. On two integers it is negative exactly when `a < b` and zero exactly when `a == b` |
| Element.StrCompareLex | src/SortedLinkedList.php:352-355 | `a <=> b` is negative exactly when `a` comes first in dictionary order: `a` is a proper prefix of `b`, or the first differing character of `a` is the smaller |
| Element.StrCompareAntisym | src/SortedLinkedList.php:352-355 | swapping two strings flips the sign of their comparison |
| Element.StrCompareZero | src/SortedLinkedList.php:352-355 | two strings compare equal exactly when they are the same string |
| Element.StrCompareTrans | src/SortedLinkedList.php:352-355 | string order is transitive |
| Element.CompareAntisym | src/SortedLinkedList.php:352-355 | swapping the operands of `<=>` flips the sign |
| Element.CompareZero | src/SortedLinkedList.php:124-127 | `<=>` is 0 exactly on equal values, so the `=== 0` test of `contains` is equality |
| Element.CompareTrans | src/SortedLinkedList.php:352-355 | `a <= b` and `b <= c` give `a <= c`, so `<=>` is a total order |
| Element.CaseSensitiveOrder | tests/SortedLinkTest.php:460-467 | strings sort case-sensitively: "Banana" < "apple" < "cherry" |
| Node.FromSeq | src/SortedLinkedList.php:362-374 | the chain `rebuildFromArray` builds reads back, front to back, as exactly the given array |
| Node.FromSeqElems | src/Node.php:12-17 | a chain is determined by its values |
| Node.DropElems | src/SortedLinkedList.php:148-151 | following `next` k times drops the first k values, so the cell `get` stops at holds element k |
| Node.DropStep | src/SortedLinkedList.php:148-151 | before the end, each step of `get`'s walk lands on a cell and moves to its `next` |
| Node.ReachesEnd | src/Node.php:12-17 | following `next` once per value always reaches `null`: every chain is finite and acyclic |
| Node.SingleNode | src/Node.php:16 | `next` defaults to `null`, so `new Node(v)` holds exactly `[v]` |
| SortedSeq.UniformPrefix | src/SortedLinkedList.php:30-35 | every prefix of a one-kind input is of one kind |
| SortedSeq.SortedIffAdjacent | src/SortedLinkedList.php:43-76 | sorted (every pair in order) is the same as every adjacent pair in order |
| SortedSeq.SortedFirstMin | src/SortedLinkedList.php:161-167 | the first element of a sorted sequence is at or below every element |
| SortedSeq.SortedLastMax | src/SortedLinkedList.php:174-185 | the last element of a sorted sequence is at or above every element |
| SortedSeq.SortedPast | src/SortedLinkedList.php:128-130 | once an element compares above `v`, `v` does not occur from there on |
| SortedSeq.SortedUnique | src/SortedLinkedList.php:30-35 | two sorted sequences with the same multiset of elements are equal |
| SortedSeq.InsertAt | src/SortedLinkedList.php:58-62 | the insertion point is the first index whose element is not below `v`, or the end |
| SortedSeq.Insert | src/SortedLinkedList.php:43-76 | `add` makes the sequence one longer |
| SortedSeq.InsertPerm | src/SortedLinkedList.php:43-76 | `add(v)` adds exactly one `v` and keeps every other element (multiset) |
| SortedSeq.InsertMembers | src/SortedLinkedList.php:43-76 | after `add(v)`, an element is present exactly when it is `v` or was present before |
| SortedSeq.InsertSplit | src/SortedLinkedList.php:47-69 | `add(v)` yields `old[..k] + [v] + old[k..]` with `k` the insertion point |
| SortedSeq.InsertSorted | src/SortedLinkedList.php:43-76 | `add` keeps the sequence sorted |
| SortedSeq.InsertOfKind | src/SortedLinkedList.php:44-45 | adding a value of the locked kind keeps every element of that kind |
| SortedSeq.InsertBeforeEqual | src/SortedLinkedList.php:47-60 | an equal value goes in front of the existing equal values |
| SortedSeq.IndexOf | src/SortedLinkedList.php:96-104 | the first position holding a value `===` to `v`, and the end exactly when `v` is absent |
| SortedSeq.Delete | src/SortedLinkedList.php:81-113 | `remove` never lengthens the sequence |
| SortedSeq.DeleteLength | src/SortedLinkedList.php:81-113 | `remove(v)` shortens by one exactly when `v` is present, and leaves the sequence as it was otherwise |
| SortedSeq.DeletePerm | src/SortedLinkedList.php:81-113 | `remove(v)` takes away one `v`, if there is one, and keeps every other element (multiset) |
| SortedSeq.DeleteMembers | src/SortedLinkedList.php:96-104 | `remove` invents no element |
| SortedSeq.DeleteSplit | src/SortedLinkedList.php:96-104 | `remove(v)` drops exactly the element at the first position holding `v` and keeps the rest in order |
| SortedSeq.DeleteSorted | src/SortedLinkedList.php:81-113 | `remove` keeps the sequence sorted |
| SortedSeq.DeleteOfKind | src/SortedLinkedList.php:81-113 | `remove` keeps every element of the locked kind |
| SortedSeq.BuildSorted | src/SortedLinkedList.php:30-35 | the fold of `add` over the items has one element per item (sortedness, multiset and order independence are in the lemmas below) |
| SortedSeq.BuildSortedSorted | src/SortedLinkedList.php:30-35 | a list built by adding items one at a time is sorted |
| SortedSeq.BuildSortedPerm | src/SortedLinkedList.php:30-35 | a list built by adding items keeps every item, duplicates included |
| SortedSeq.BuildSortedOfSorted | src/SortedLinkedList.php:30-35 | building from an already sorted input gives that input back |
| SortedSeq.BuildSortedOrderFree | src/SortedLinkedList.php:30-35 | the final list does not depend on the order in which items are added |
| SortedSeq.UniformSnoc | src/SortedLinkedList.php:328-344 | one more value is accepted exactly when it has the kind the list locked on (or nothing is locked) |
| SortedSeq.BuildStep | src/SortedLinkedList.php:30-35 | one more `add` on a fresh list is accepted exactly when kinds stay uniform, and then it extends the fold and locks the first kind |
| SortedSeq.MergeSortedPerm | src/SortedLinkedList.php:284-294 | the sorted merge holds both inputs' elements, duplicates kept |
| SortedSeq.MergeSortedSorted | src/SortedLinkedList.php:284-294 | the sorted merge of two sorted sequences is sorted |
| SortedSeq.BuildSortedIsMerge | src/SortedLinkedList.php:284-294 | adding all of one list and then all of the other gives the sorted merge of the two |
| SortedSeq.FilterSeq | src/SortedLinkedList.php:301-310 | the result of `filter` is no longer than the list and every kept element satisfies the predicate (exact membership and multiplicities in `FilterSeqMembers` and `FilterSeqCount`) |
| SortedSeq.FilterStep | src/SortedLinkedList.php:304-308 | a step of `filter` keeps the next element exactly when it matches, and kinds stay uniform |
| SortedSeq.FilterSeqCount | src/SortedLinkedList.php:301-310 | `filter` keeps each matching element as often as it occurs and drops every other one |
| SortedSeq.FilterSeqMembers | src/SortedLinkedList.php:301-310 | an element is in the filtered list exactly when it is in the list and matches |
| SortedSeq.FilterSeqSorted | src/SortedLinkedList.php:301-310 | filtering a sorted list leaves it sorted |
| SortedSeq.FilterSeqUniform | src/SortedLinkedList.php:301-310 | filtering a one-kind list leaves it of one kind |
| Text.NatToDecimal | src/SortedLinkedList.php:318 | a natural number's decimal form is non-empty digits, with a leading '0' only for 0 |
| Text.IntToDecimal | src/SortedLinkedList.php:318 | `(string)$int` is a decimal form, starting with '-' exactly for negative integers |
| Text.ParseNatToDecimal | src/SortedLinkedList.php:318 | reading back the decimal form of `n` gives `n` |
| Text.ParseIntToDecimal | src/SortedLinkedList.php:318 | reading back the decimal form of an integer gives the integer |
| Text.Show | src/SortedLinkedList.php:318 | a string is shown between double quotes with its characters unchanged; an integer is shown as a decimal form that reads back to it |
| Text.ShowAll | src/SortedLinkedList.php:317-319 | `array_map` shows each element at its position |
| Text.Implode | src/SortedLinkedList.php:317 | `implode` of no parts is "", and otherwise it begins with the first part |
| Text.ImplodeAppend | src/SortedLinkedList.php:317 | imploding a concatenation joins the two sides' results with the separator |
| Text.Render | src/SortedLinkedList.php:315-321 | the text is bracketed, and it is "[]" exactly for the empty list |
| Text.RenderSnoc | src/SortedLinkedList.php:315-321 | one more element adds ", " and its text before the closing bracket |
| SortedList.InsertWalkStep | src/SortedLinkedList.php:58-65 | one step of the walk in `add` keeps "collected values, followed by what is still to come, is the answer" |
| SortedList.DeleteWalkStep | src/SortedLinkedList.php:96-104 | one step of the walk in `remove` keeps the same invariant and records whether `v` was passed |
| SortedList.SortedLinkedList.constructor | src/SortedLinkedList.php:30-35 | a list made without items is empty, valid and unlocked |
| SortedList.SortedLinkedList.ValidateType | src/SortedLinkedList.php:328-344 | passes exactly when the list is unlocked or locked on the value's kind. On pass the kind is locked on the value's kind; on failure (`TypeMismatch`) nothing changes |
| SortedList.SortedLinkedList.RebuildFromArray | src/SortedLinkedList.php:362-374 | the new chain holds exactly the given values in order |
| SortedList.SortedLinkedList.ValuesWithInserted | src/SortedLinkedList.php:54-69 | the walk collects the contents with `v` placed at the insertion point |
| SortedList.SortedLinkedList.ValuesWithoutFirst | src/SortedLinkedList.php:92-104 | the walk collects the contents without the first value `=== v`, and reports whether there was one |
| SortedList.SortedLinkedList.Add | src/SortedLinkedList.php:43-76 | accepted exactly when the kind matches the lock. On success: returns the list itself, the contents become `Insert(old, v)`, the kind is locked and the list stays valid. On `TypeMismatch` the head, size and kind are unchanged |
| SortedList.SortedLinkedList.Remove | src/SortedLinkedList.php:81-113 | returns true exactly when `v` was present. The contents become `Delete(old, v)`, the size drops by one exactly then, the chain is untouched otherwise, and the kind lock never changes |
| SortedList.SortedLinkedList.Contains | src/SortedLinkedList.php:120-134 | despite stopping at the first larger element, returns true exactly when `v` is in the list |
| SortedList.SortedLinkedList.Get | src/SortedLinkedList.php:142-154 | `IndexOutOfRange` exactly when `index < 0` or `index >= count`, otherwise element `index` |
| SortedList.SortedLinkedList.First | src/SortedLinkedList.php:161-167 | `EmptyContainer` exactly on an empty list, otherwise element 0, which is the minimum |
| SortedList.SortedLinkedList.Last | src/SortedLinkedList.php:174-185 | `EmptyContainer` exactly on an empty list, otherwise the final element, which is the maximum |
| SortedList.SortedLinkedList.RemoveFirst | src/SortedLinkedList.php:192-202 | `EmptyContainer` (nothing changed) exactly on an empty list. Otherwise returns the minimum, leaves the tail as the contents and keeps the kind lock |
| SortedList.SortedLinkedList.Clear | src/SortedLinkedList.php:208-214 | returns the list itself, now empty with size 0 and no kind lock |
| SortedList.SortedLinkedList.IsEmpty | src/SortedLinkedList.php:219-222 | true exactly when the list holds nothing, which is exactly when the count is 0 |
| SortedList.SortedLinkedList.Count | src/SortedLinkedList.php:227-230 | the size field is the number of elements |
| SortedList.SortedLinkedList.ToString | src/SortedLinkedList.php:315-321 | the text is bracketed and is "[]" exactly for an empty list |
| SortedList.SortedLinkedList.ToArray | src/SortedLinkedList.php:236-245 | the array holds the elements front to back |
| SortedList.SortedLinkedList.AddAll | src/SortedLinkedList.php:286-292 | adding items one by one succeeds exactly when all added values share one kind, and then the list is the fold of `add` over them |
| SortedList.SortedLinkedList.FromArray | src/SortedLinkedList.php:274-277 | fails with `TypeMismatch` exactly when the items mix kinds. Otherwise a fresh valid list, locked on the first item's kind, whose contents are the items added in order |
| SortedList.SortedLinkedList.Merge | src/SortedLinkedList.php:284-294 | fails with `TypeMismatch` exactly when the two lists mix kinds. Otherwise a fresh list holding the sorted merge of both; neither input changes |
| SortedList.SortedLinkedList.Filter | src/SortedLinkedList.php:301-310 | a fresh valid list holding, in order, the elements that satisfy the predicate, locked on the kind of the first one kept (unlocked if none is kept); the receiver does not change |
| SortedList.KindLockLifecycle | tests/SortedLinkTest.php:238-246 | a string is refused after an integer was added, still refused once that integer is removed, and accepted after `clear` |
| Scenarios.AddKeepsOrder | tests/SortedLinkTest.php:36-43 | adding 5, 2, 8, 1 gives 1, 2, 5, 8 |
| Scenarios.AddKeepsDuplicates | tests/SortedLinkTest.php:45-52 | adding 2 twice to 1, 2, 3 gives 1, 2, 2, 2, 3 |
| Scenarios.RemoveOnlyFirst | tests/SortedLinkTest.php:75-119 | removing 2 from 1, 2, 2, 2, 3 drops one 2, and removing an absent value changes nothing |
| Scenarios.MergeKeepsDuplicates | tests/SortedLinkTest.php:327-335 | merging 1, 2, 3 with 2, 3, 4 gives 1, 2, 2, 3, 3, 4 |
| Scenarios.StringsSorted | tests/SortedLinkTest.php:29-34 | adding "dog", "cat", "bird" gives "bird", "cat", "dog" |
| Scenarios.EmptyToString | tests/SortedLinkTest.php:375-379 | an empty list shows as `[]` |
| Scenarios.IntsToString | tests/SortedLinkTest.php:366-369 | 1, 2, 3 shows as `[1, 2, 3]` |
| Scenarios.StringsToString | tests/SortedLinkTest.php:371-372 | "bird", "cat", "dog" shows as `["bird", "cat", "dog"]` |

## Left out

- PHP 8 compares two numeric strings numerically (`"10" <=> "9"` is 1). It compares other strings byte by byte. The model orders all strings lexicographically by character, which is byte order for the library's ASCII tests. The numeric-string rule and the `===` versus `<=>` differences it causes between `remove` and `contains` are not modelled.
- Element.Compare: comparing an integer with a string is reachable only through `contains` called with a value of the other kind. PHP's int/string juggling is not modelled. The model puts every integer before every string so that `Compare` stays a total order. With this choice, `contains` finds nothing of the other kind, and neither does `remove` (`===` never matches across kinds).
- The "neither string nor int" branch of `validateType` (src/SortedLinkedList.php:333-336) cannot be reached: an `Elem` is always one of the two kinds.
- Integers are unbounded. PHP's 64-bit integer width, and its overflow to float, are not modelled.
- `getIterator` is a lazy generator and is not modelled. `merge` and `filter` iterate over `ToArray()`, which yields the same values in the same order. The model has no iteration interleaved with mutation.
- `jsonSerialize` only returns `toArray()`. `json_encode` is a foreign call and is not modelled.
- The predicate of `filter` is a pure `Elem -> bool`. Callables with side effects, or that throw, are outside the model.
- The constructor with items cannot fail in Dafny. It is modelled by `FromArray` together with `AddAll`: the result is `TypeMismatch` where the source throws from inside the constructor. A partially built list never escapes, as in the source.
- Nodes are values in the model. Sharing of node objects between lists, and garbage collection of dropped nodes, are not observable and are not modelled.
- The console demo `example-usage.php` is not part of this model.
- tests/SortedLinkTest.php is cited as evidence for the scenarios only.
- One might expect the kind lock to be unset exactly when the list is empty. The code clears the lock only in `clear()`, so `remove` and `removeFirst` can leave an empty list that is still locked. The model follows the code: `Valid()` only requires that an unlocked list is empty (see `Remove`, `RemoveFirst` and `KindLockLifecycle`).
