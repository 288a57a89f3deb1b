# Verified model of the C exercises: red-black tree, payload adapters, student records, railway planner

This project is a Dafny model of four C sources and proofs about them:

- **Ex3/RBTree.c** is a generic red-black tree. It has a user compare function and a user `freeFunc`. It offers insert, delete, membership, in-order traversal with a visitor, and teardown.
  - The model is a class `RedBlackTree.RBTree`. Nodes are records in an arena (`heap`), a map from slot numbers to records carrying `data`, `color`, `left`, `right` and `parent`. A `Node*` is a slot number or null.
  - A ghost value tree (`tree`) is tied to the links by `RBLinks.Linked`, which includes the parent back-links.
  - A ghost log (`freed`) records every payload handed to `freeFunc`.
  - Every C function is a method that does the same field writes. Its contract says what the writes do to the value tree.
  - The red-black rules and in-order order are proved to hold after each insert and delete. The proof uses invariants on a zipper (`RBTrees.Path`) in modules `RBInsert` and `RBDelete`.
- **Ex3/Structs.c** holds the payload adapters used with the tree:
  - the string and vector compare functions;
  - the visitor that appends words to a text buffer;
  - the squared norm;
  - the visitor that keeps the vector of largest norm.
- **Ex1/manageStudents.c** covers the field checks of a student line and the search for the best student. It also covers the merge sort by grade and the quicksort by name on the student array.
- **Ex2/RailWayPlanner.c** covers the checks on the input lines and the dynamic-programming table of cheapest prices by total length.
  - The input checks cover the symbol line, the numeric lines and the rail lines.
  - `RailwayPrices.MinPriceTo` is the recurrence the table holds.
  - It is proved optimal and attained over chains of rails (`MinPriceOptimal`, `MinPriceAttained`).

Module map:

| module | file | contents |
|---|---|---|
| Wrappers | wrappers.dfy | `Option` |
| Orders | orders.dfy | compare functions as total orders; ascending sequences |
| RBTrees | rb_trees.dfy | value trees with node ids, colours, the red-black rules, zippers, rotations |
| RBLinks | rb_links.dfy | the arena of records and how each kind of field write moves the value tree |
| RBInsert | rb_insert.dfy | the insert-repair invariant and its cases |
| RBDelete, RBDeleteWrites | rb_delete.dfy, rb_delete_writes.dfy | the delete fix-up invariant, its cases, and the field writes of each case |
| RBWalk | rb_walk.dfy | the visitor traversal, as written and as a fold over the in-order keys |
| RedBlackTree | rb_tree.dfy | the `RBTree` class and the public functions of Ex3/RBTree.c |
| Structs | structs.dfy | Ex3/Structs.c |
| ManageStudents | manage_students.dfy | Ex1/manageStudents.c |
| RailwayInput, RailwayPrices | railway_input.dfy, railway_prices.dfy | Ex2/RailWayPlanner.c |

A few behaviours of the C code may surprise a reader. The model keeps them:

- `forEachRBTreeHelper` (Ex3/RBTree.c:427-451) visits the right subtree of a node even after the visit of that node has failed. The result is still failure. `RBWalk.Walk` follows the code, and `RBWalk.WalkVisitsPastFailure` shows an input where this happens. The result code and, on success, the final visitor state agree with a left-to-right fold (`RBWalk.WalkInOrder`).
- `checkLengthAndConnections` (Ex2/RailWayPlanner.c:222-236) accepts an empty line, because `strtol` then returns 0 with the end pointer at the terminator (`RailwayInput.CheckAcceptsEmpty`).
- `checkRoadInput` (Ex2/RailWayPlanner.c:145-215) splits with `strtok`, which skips empty fields. So `a,,b,3,4` is accepted like `a,b,3,4` (`RailwayInput.TokensSkipEmpty`).

## Model

| member | source | states |
|---|---|---|
| RedBlackTree.RBTree.constructor | Ex3/RBTree.c:20-32 | a new tree is valid and empty: root null, size 0, no keys, and it keeps the given compare function |
| RedBlackTree.RBTreeContains | Ex3/RBTree.c:40-64 | the result is true iff the tree and the payload are non-null and some stored key equals the payload |
| RedBlackTree.FindLocation | Ex3/RBTree.c:123-157 | the result is the node holding `x` if there is one, else the last node on the search path (null for an empty or null tree) |
| RedBlackTree.RBTree.InitNode | Ex3/RBTree.c:164-177 | a fresh slot outside the tree gets a red record with no links; the tree is unchanged |
| RedBlackTree.RBTree.HangNode | Ex3/RBTree.c:361-379 | the new red node is hung at the empty place the search stopped at; a null parent makes it the root |
| RedBlackTree.RBTree.AddLeaf | Ex3/RBTree.c:408-413 | after `initNode` and `hangNode` the keys are the old keys plus `x`, one more of them, ascending, and the insert-repair invariant holds |
| RedBlackTree.RBTree.RotateLeft | Ex3/RBTree.c:250-280 | the links now spell the left rotation of the subtree; in-order keys, node set and root pointer are unchanged |
| RedBlackTree.RBTree.RotateRight | Ex3/RBTree.c:214-244 | the links now spell the right rotation of the subtree; in-order keys and node set are unchanged |
| RedBlackTree.RBTree.Paint | Ex3/RBTree.c:331-334 | one colour write changes that node's colour and nothing else |
| RedBlackTree.RBTree.GetUncle | Ex3/RBTree.c:185-195 | the result is the grandparent's child that is not the parent |
| RedBlackTree.RBTree.RedFatherRedUncle | Ex3/RBTree.c:203-208 | parent and uncle turn black and the grandparent red, which moves the violation two levels up (`RedUncleLift`) |
| RedBlackTree.RBTree.SecondStep | Ex3/RBTree.c:286-300 | on a straight line, the rotation at the grandparent and the recolouring give `InsRotated`, with keys and nodes unchanged |
| RedBlackTree.RBTree.RedFatherBlackUncle | Ex3/RBTree.c:308-321 | with a red parent and black uncle, the tree satisfies all red-black rules afterwards, keys and nodes unchanged |
| RedBlackTree.RBTree.InsertRepairs | Ex3/RBTree.c:329-353 | from the insert-repair invariant, the tree satisfies all red-black rules afterwards, with the same keys and nodes |
| RedBlackTree.RBTree.FindNewRoot | Ex3/RBTree.c:386-393 | following parent links from any node reaches the root |
| RedBlackTree.InsertToRBTree | Ex3/RBTree.c:401-418 | succeeds iff tree and payload are non-null and the payload is absent; then keys gain exactly it and size grows by one; otherwise nothing changes (keys, size, shape, records and root); the tree stays valid, which includes the red-black rules and ascending order |
| RedBlackTree.RBTree.ForEachHelper | Ex3/RBTree.c:427-451 | the visit of a subtree returns what `Walk` computes, including visiting the right subtree after a failure |
| RedBlackTree.ForEachRBTree | Ex3/RBTree.c:461-477 | null tree gives 0; otherwise 1 iff every visit of the keys in ascending order succeeds (so 1 on an empty tree), and then the final visitor state is the fold's |
| RBWalk.WalkInOrder | Ex3/RBTree.c:427-451 | the recursive walk succeeds iff the in-order fold succeeds, and then ends in the same state |
| RBWalk.WalkVisitsPastFailure | Ex3/RBTree.c:440-449 | on a two-node tree, a failing visitor still visits the right child: the walk makes two visits where the fold stops after one |
| RedBlackTree.RBTree.FindSuccessor | Ex3/RBTree.c:484-494 | the result is the leftmost node of the subtree |
| RBDelete.LeftmostFacts | Ex3/RBTree.c:484-494 | the leftmost node has no left child and holds the first in-order key of the subtree |
| RedBlackTree.RBTree.ChangeWithSuccessor | Ex3/RBTree.c:501-508 | payloads are swapped with the leftmost node of the right subtree; that node now holds the deleted payload and has no left child |
| RedBlackTree.RBTree.FindChild | Ex3/RBTree.c:515-526 | the left child if present, else the right one |
| RedBlackTree.RBTree.FindBrother | Ex3/RBTree.c:533-544 | the parent's other child, or null at the root |
| RedBlackTree.RBTree.FindFarChild | Ex3/RBTree.c:633-640 | the brother's child on the side away from the node |
| RedBlackTree.RBTree.FindCloseChild | Ex3/RBTree.c:648-655 | the brother's child on the node's side |
| RedBlackTree.RBTree.DeleteCase1 | Ex3/RBTree.c:551-561 | the parent forgets the leaf; the tree is the context with an empty place |
| RBDelete.Del1Case | Ex3/RBTree.c:551-561 | removing a red node with at most one child removes a leaf and keeps the red-black rules |
| RedBlackTree.RBTree.DeleteCase2 | Ex3/RBTree.c:569-582 | the only child, painted black, takes the node's place |
| RBDelete.Del2Case | Ex3/RBTree.c:569-582 | replacing a black node by its red only child painted black keeps the red-black rules |
| RBDelete.SpliceShape | Ex3/RBTree.c:753-776 | a node with at most one child is a leaf when it is red or its child is black; an only child is a red leaf, so the three branches of `deleteCases` cover every case |
| RedBlackTree.RBTree.DeleteCase3B1 | Ex3/RBTree.c:589-593 | parent black, brother red |
| RBDelete.Del3B1Case | Ex3/RBTree.c:589-593 | with a red parent and a black brother with black children, that recolouring restores the red-black rules |
| RedBlackTree.RBTree.DeleteCase3B2 | Ex3/RBTree.c:600-604 | the brother turns red and the fix-up invariant moves one level up |
| RBDelete.Del3B2Case | Ex3/RBTree.c:600-604 | with all black around the node, the invariant holds one level up and the number of black frames decreases |
| RedBlackTree.RBTree.DeleteCase3C | Ex3/RBTree.c:612-625 | a red brother is rotated above the parent and the fix-up continues at the same node |
| RBDelete.Del3CCase | Ex3/RBTree.c:612-625 | the rotation keeps the invariant and lowers the rank, so the fix-up terminates |
| RedBlackTree.RBTree.DeleteCase3D | Ex3/RBTree.c:664-677 | a red close child is rotated above the brother |
| RBDelete.Del3DCase | Ex3/RBTree.c:664-677 | afterwards the brother is black with a red far child, so case 3E applies |
| RedBlackTree.RBTree.DeleteCase3E | Ex3/RBTree.c:686-700 | the rotation at the parent with the colour exchange gives `Rotate3E` |
| RBDelete.Del3ECase | Ex3/RBTree.c:686-700 | with a black brother and red far child, the rotation restores all red-black rules |
| RBDelete.Del3RootCase | Ex3/RBTree.c:710-713 | at the root the fix-up invariant is the red-black rules |
| RBDelete.Del3Start | Ex3/RBTree.c:764-774 | a black leaf about to be unlinked satisfies the fix-up invariant |
| RedBlackTree.RBTree.DeleteCase3 | Ex3/RBTree.c:708-744 | the fix-up above a black leaf: the invariant ends in a tree where removing the leaf keeps the red-black rules, in the same context |
| RedBlackTree.RBTree.DeleteCase3Unlink | Ex3/RBTree.c:764-774 | after the fix-up the leaf's place is empty and the tree satisfies the red-black rules |
| RedBlackTree.RBTree.DeleteCases | Ex3/RBTree.c:753-776 | a non-root node with at most one child is spliced out; keys are the context around its child, the red-black rules hold, its record is kept for release |
| RBDelete.DelRootCase | Ex3/RBTree.c:802-810 | a root with at most one child is replaced by that child painted black, keeping the rules |
| RedBlackTree.RBTree.RemoveRoot | Ex3/RBTree.c:802-810 | the root branch: the only child, painted black, becomes the root |
| RedBlackTree.RBTree.Unlink | Ex3/RBTree.c:799-815 | a node with at most one child leaves the tree; its keys are the context around the child; root pointer and red-black rules hold |
| RedBlackTree.RBTree.Remove | Ex3/RBTree.c:795-820 | removing a found node: in-order keys lose exactly its payload, size drops by one, and its payload is released once |
| RedBlackTree.RBTree.Release | Ex3/RBTree.c:816-818 | the record leaves the arena and its payload is logged as freed |
| RedBlackTree.DeleteFromRBTree | Ex3/RBTree.c:784-821 | succeeds iff tree and payload are non-null and the payload is present; then exactly that key is gone, every other key stays, size drops by one and the payload is freed once; otherwise nothing changes (keys, size, shape, records, root and the freed log) |
| RedBlackTree.RBTree.FreeNode | Ex3/RBTree.c:71-97 | the subtree's records leave the arena and their payloads are freed in post-order |
| RedBlackTree.FreeRBTree | Ex3/RBTree.c:104-115 | every payload is freed exactly once, in post-order, and the arena is empty; the tree object is released (root null, no nodes, size 0) and the caller's handle is null |
| RBTrees.PostOrderPermutation | Ex3/RBTree.c:71-97 | the post-order release order is a permutation of the keys |
| RBTrees.RotLFacts | Ex3/RBTree.c:250-280 | a left rotation keeps the in-order keys and the node set |
| RBTrees.RotRFacts | Ex3/RBTree.c:214-244 | a right rotation keeps the in-order keys and the node set |
| RBTrees.RotationsInverse | Ex3/RBTree.c:214-280 | a right rotation undoes a left rotation |
| RBInsert.InsStart | Ex3/RBTree.c:401-418 | a red leaf hung in a red-black tree satisfies the insert-repair invariant |
| RBInsert.InsRootCase | Ex3/RBTree.c:331-334 | painting the root black ends the repair with all rules holding |
| RBInsert.InsBlackParentCase | Ex3/RBTree.c:335-338 | a black parent ends the repair with all rules holding |
| RBInsert.InsRedUncleCase | Ex3/RBTree.c:343-346 | a red uncle moves the invariant two levels up |
| RBInsert.InsRotateCase | Ex3/RBTree.c:286-300 | on a straight line with a black uncle, the rotation restores all rules |
| RBInsert.InsZigZagCase | Ex3/RBTree.c:308-321 | the zig-zag rotation turns the case into the straight-line case with the invariant kept |
| Structs.LexCmp | Ex3/Structs.c:63-99 | the compare result is -1, 0 or 1, and 0 exactly on equal vectors |
| Structs.VectorCompare1By1 | Ex3/Structs.c:63-99 | the loop over the common prefix, then the lengths, computes `LexCmp` |
| Structs.VectorCompareOrder | Ex3/Structs.c:63-99 | 0 iff equal, negative iff lexicographically smaller, and antisymmetric |
| Structs.LexTransitive | Ex3/Structs.c:63-99 | the vector compare is transitive |
| Structs.LexTotal | Ex3/Structs.c:63-99 | the vector compare is a total order, as the tree requires |
| Structs.StringCompareOrder | Ex3/Structs.c:18-24 | the string compare is negative, zero or positive exactly as a is lexicographically less than, equal to or greater than b |
| Structs.StringCompareTotal | Ex3/Structs.c:18-24 | the string compare is a total order |
| Structs.Concatenate | Ex3/Structs.c:33-44 | fails on a null word or buffer and leaves the buffer; otherwise returns 1 and appends the word and a newline |
| Structs.ConcatenateAll | Ex3/Structs.c:33-44 | a traversal with this visitor always succeeds and yields the old text followed by each word on its own line |
| Structs.SqNormZero | Ex3/Structs.c:116-124 | the squared norm is zero iff every coordinate is zero |
| Structs.NormCalc | Ex3/Structs.c:116-124 | the loop computes the squared norm |
| Structs.CopyStep | Ex3/Structs.c:133-160 | an empty vector fails and leaves the accumulator; otherwise the accumulator becomes the vector or stays |
| Structs.CopyIfNormIsLarger | Ex3/Structs.c:133-160 | null arguments fail with no change; otherwise the result and new accumulator are those of `CopyStep` |
| Structs.MaxNormSteps | Ex3/Structs.c:133-160 | a traversal succeeds iff no vector is empty, and then ends holding the first vector of largest norm |
| Structs.FindMaxNormVectorInTree | Ex3/Structs.c:166-180 | null tree or a failed traversal gives null; otherwise a fresh vector holding the first key, in ascending order, of largest norm |
| ManageStudents.IsValidId | Ex1/manageStudents.c:288-298 | success iff every character is a decimal digit |
| ManageStudents.IsValidName | Ex1/manageStudents.c:322-332 | success iff every character is a letter, space or '-' |
| ManageStudents.IsValidLocation | Ex1/manageStudents.c:305-315 | success iff every character is a letter or '-' |
| ManageStudents.CheckInput | Ex1/manageStudents.c:238-281 | success iff the record is valid; otherwise the first failing check, in the order format, id, name, grade, age, country, city, is the one reported |
| ManageStudents.FindBestStudent | Ex1/manageStudents.c:340-356 | 0 when no score is positive; otherwise the lowest index of maximal grade/age ratio |
| ManageStudents.MergePermutation | Ex1/manageStudents.c:397-435 | the merge of two runs is a permutation of their union |
| ManageStudents.MergeSorted | Ex1/manageStudents.c:397-435 | merging two grade-sorted runs gives a grade-sorted run |
| ManageStudents.MergeStable | Ex1/manageStudents.c:401-414 | the merge is stable: for each grade, left-run entries come first, each run in its own order |
| ManageStudents.MergeRuns | Ex1/manageStudents.c:401-414 | the first loop writes the merge prefix into the temporary array and stops when a run is drained |
| ManageStudents.CopyRun | Ex1/manageStudents.c:415-434 | a copy loop copies a range and touches nothing else |
| ManageStudents.MergeAtIsMergeSeq | Ex1/manageStudents.c:401-430 | the index-based merge equals the merge of the two runs |
| ManageStudents.Merge | Ex1/manageStudents.c:397-435 | the range becomes the merge of its two halves and nothing outside it changes |
| ManageStudents.MergeSortPermutation | Ex1/manageStudents.c:378-388 | the merge sort is a permutation |
| ManageStudents.MergeSortSorted | Ex1/manageStudents.c:378-388 | the merge sort result is sorted by grade |
| ManageStudents.MergeSortStable | Ex1/manageStudents.c:378-388 | the merge sort keeps the input order among equal grades |
| ManageStudents.SortStep | Ex1/manageStudents.c:378-388 | sorting both halves and merging gives the merge sort of the range |
| ManageStudents.MergeSortHelper | Ex1/manageStudents.c:378-388 | the range becomes its merge sort and nothing outside it changes |
| ManageStudents.Swap | Ex1/manageStudents.c:483-485 | two entries exchange places and the array is a permutation of the old one |
| ManageStudents.MoveBeforePivot | Ex1/manageStudents.c:478-487 | entries named before the pivot are moved to the front; the rest are not before it; permutation, pivot and outside untouched |
| ManageStudents.QuickSortHelper | Ex1/manageStudents.c:474-492 | returns p in the range with the pivot at p, names before it strictly smaller, names after it not smaller; permutation, outside untouched |
| ManageStudents.SortedJoin | Ex1/manageStudents.c:457-465 | a sorted left part, the pivot and a sorted right part are sorted together |
| ManageStudents.QuickSortStep | Ex1/manageStudents.c:457-465 | partition then both recursive sorts leave the range sorted and permuted |
| ManageStudents.QuickSortMain | Ex1/manageStudents.c:457-465 | the range is sorted by name, the array is a permutation, nothing outside changes |
| RailwayInput.FirstIndex | Ex2/RailWayPlanner.c:126-137 | -1 iff absent; otherwise the index of the first occurrence |
| RailwayInput.CheckValidSymbol | Ex2/RailWayPlanner.c:126-137 | the loop returns the first index of the symbol, and -1 exactly when it is absent |
| RailwayInput.ParseSymbols | Ex2/RailWayPlanner.c:245-291 | accepts iff the first 2n-1 bytes alternate symbol and ','; then the n symbols are the even bytes, followed by a terminator |
| RailwayInput.JoinedAccepted | Ex2/RailWayPlanner.c:263-283 | joining symbols without ',' by commas gives a line that is accepted and gives those symbols back |
| RailwayInput.ShortLineAccepted | Ex2/RailWayPlanner.c:263-283 | the check as written accepts a line that ends before its last symbol, reading the terminator as a symbol |
| RailwayInput.SymbolsAcceptedMeansWellFormed | Ex2/RailWayPlanner.c:263-283 | the corrected check accepts iff the line text has 2n-1 characters alternating symbol and ',' |
| RailwayInput.ShortLineRejected | Ex2/RailWayPlanner.c:263-283 | the corrected check rejects the short line above |
| RailwayInput.StrToLDigits | Ex2/RailWayPlanner.c:222-228 | an optional sign and a run of digits parses to its signed value with nothing left |
| RailwayInput.DecimalValue | Ex2/RailWayPlanner.c:222-228 | the decimal spelling of n has value n |
| RailwayInput.CheckLengthAndConnections | Ex2/RailWayPlanner.c:222-236 | success iff the line is empty or is white space, an optional sign and a non-empty run of digits whose value is not negative; failure otherwise |
| RailwayInput.StrToLWhole | Ex2/RailWayPlanner.c:228-235 | strtol reads the whole line with a non-negative value iff the line is empty or such a number text (both directions) |
| RailwayInput.CheckAcceptsDecimal | Ex2/RailWayPlanner.c:222-236 | a decimal number is accepted; a negative one is rejected |
| RailwayInput.CheckRejectsTrailing | Ex2/RailWayPlanner.c:222-236 | a number followed by a non-digit is rejected |
| RailwayInput.CheckAcceptsEmpty | Ex2/RailWayPlanner.c:222-236 | the empty line is accepted |
| RailwayInput.ParseSecondLine | Ex2/RailWayPlanner.c:328-339 | an accepted count is positive and is the whole line's value; a rejected one failed the number check or is 0 |
| RailwayInput.SecondLineDecimal | Ex2/RailWayPlanner.c:328-339 | a decimal count is accepted iff it is not 0 |
| RailwayInput.TokensOfJoin | Ex2/RailWayPlanner.c:154-206 | splitting non-empty comma-free fields joined by commas gives them back |
| RailwayInput.TokensSkipEmpty | Ex2/RailWayPlanner.c:154-206 | a leading comma yields no field |
| RailwayInput.CheckRoadInput | Ex2/RailWayPlanner.c:145-215 | a rail is returned iff there are exactly 4 fields, two one-character known symbols, then length and price in (0, INT_MAX]; the rail is built from them |
| RailwayInput.RoadLineRoundTrip | Ex2/RailWayPlanner.c:145-215 | printing a valid rail as a line and checking it gives the same rail |
| RailwayPrices.BestViaBelow | Ex2/RailWayPlanner.c:421-446 | the loop's minimum is at most the price via any usable rail |
| RailwayPrices.BestViaAttained | Ex2/RailWayPlanner.c:421-446 | a finite minimum is the price via some usable rail |
| RailwayPrices.MinPriceOptimal | Ex2/RailWayPlanner.c:421-446 | the table value for a length and end symbol is at most the price of every chain of rails of that length ending there |
| RailwayPrices.MinPriceAttained | Ex2/RailWayPlanner.c:421-446 | a finite table value is the price of some such chain |
| RailwayPrices.Helper | Ex2/RailWayPlanner.c:421-446 | given the rows below filled, the loop computes the cell: 0 for length 0, else the cheapest usable rail plus the cell it leaves from, or INT_MAX |
| RailwayPrices.FindMinInTable | Ex2/RailWayPlanner.c:454-465 | the minimum of row entries 1..length-1, ignoring entry 0, or INT_MAX when there are none |
| RailwayPrices.FillRow | Ex2/RailWayPlanner.c:496-504 | one row of cells is filled with `helper` values and the headers are kept |
| RailwayPrices.CheapestEndOptimal | Ex2/RailWayPlanner.c:476-512 | the cheapest price over end symbols is at most the price of every chain of that length |
| RailwayPrices.CheapestEndAttained | Ex2/RailWayPlanner.c:476-512 | a finite cheapest price is the price of some chain of that length |
| RailwayPrices.FindMinPrice | Ex2/RailWayPlanner.c:476-512 | the result is the cheapest price of a chain of the given length, or -1 when there is none |

## Findings

| source | as written | input that shows it | evidently intended | confidence | as-written member | corrected member |
|---|---|---|---|---|---|---|
| Ex2/RailWayPlanner.c:263-283 | the symbol loop checks only the first 2n-1 buffer bytes for symbol/',' alternation and never looks for the string terminator | with 2 connections, the line `a,` then the terminator: the terminator is taken as the second symbol and the line is accepted | a line with fewer than 2n-1 characters is rejected | not executed | RailwayInput.ShortLineAccepted | RailwayInput.SymbolsAcceptedMeansWellFormed |

`RailwayInput.ParseSymbols` models the loop as written. `RailwayInput.SymbolsAccepted` is the corrected rule: a terminator at a symbol position rejects the line. `RailwayInput.ShortLineRejected` shows that the corrected rule rejects the same input.

## Left out

- Input and output: reading lines and files, printing, and the process exit of `main`, `inputLoop`, `bestStudent`, the sorting drivers, `firstLine`, `parseFirstLine`, `parseRoads`, `outputExit`, `allocFail` and the usage errors. Lines arrive as parameters.
- Allocation failure, everywhere: `malloc` and `realloc` are modelled as succeeding. A new arena slot, array or object stands for each allocation.
- `freeFunc` is a ghost log of released payloads, and the compare function is a fixed total order on one payload type. Arbitrary C callbacks are not modelled.
- The library internals of `sscanf`, `strtok`, `strtol` and `strcat`. `sscanf` is modelled as its outcome: an `Option<Student>` of parsed fields. `strtok` is `RailwayInput.Tokens`. `strtol` is `RailwayInput.StrToL` on base-10 text.
- RailwayInput.StrToL: does not clamp to the `long` range and does not model the `(int)` casts of the parsed values. Integers are unbounded.
- RailwayPrices.Helper: does not model the 32-bit overflow of `price + addedPrice`. A sum at or above INT_MAX is never taken as a new minimum.
- RailwayPrices.FindMinPrice: the `minPrice < 0` guard never fires in the model, because no overflow is modelled.
- RailwayInput.ParseSymbols: reads a buffer of at least 2n-1 characters. Line truncation by `fgets` and bytes past the terminator are whatever the buffer parameter holds.
- RailwayPrices.FindMinPrice: the C table is one flat block indexed row by row. The model uses a two-dimensional array of the same shape. The rail count and the symbol count are the lengths of the sequences passed in.
- Structs.StringCompare: only the sign of `strcmp` is modelled. C characters are bytes; the model uses Dafny characters.
- Structs.NormCalc: computes the exact sum of squares over integer coordinates rather than a `double` sum.
- ManageStudents.FindBestStudent: grades and ages are compared as exact rationals rather than `double` quotients.
- ManageStudents.Merge: the C `tempArr` allocated per call is a fresh array in the model. Its first loop and its copy loops are the separate methods `MergeRuns` and `CopyRun`.
- RedBlackTree.FreeRBTree: Dafny objects cannot be deallocated. `free(*tree)` is modelled by clearing the object's fields and setting its ghost `released` flag. `*tree = NULL` is the null handle the method returns, which the caller stores in place of its own.
- The tree's `size` is unbounded and node slots are never reused. The C `int` counter and `malloc` addresses are not modelled.
- Ex1/def.h is not part of this model: it holds only declarations for an outside test harness.
