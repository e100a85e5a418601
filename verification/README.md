# DrugList in Dafny

A model of `DrugList` from `LinkedListofDrugs/Program.cs`. `DrugList` is a singly linked list of `Drug`
reimbursement records. It keeps pointers to its head and tail nodes and a count of its nodes. The records
are ordered by name through `Drug.CompareTo`. The model covers:

- the list operations `Append`, `InsertInOrder`, `RemoveFirst` and `RemoveMin`;
- the two sorts built on them: `SelectSort`, which removes a minimum and appends it, over and over, and
  `InsertSort`, which removes the first record and inserts it in order, over and over;
- the traversals `ToArray` and `Enumeration`.

The project has five modules:

- `options.dfy` (`Options`): `Option`, which stands for a reference that may be `null`.
- `drugs.dfy` (`Drugs`): the `Drug` record and `Compare`. The string comparison behind it is an abstract
  `Comparator`. It may be any function on names that answers -1, 0 or 1, flips sign when its arguments are
  swapped, and chains transitively. `Ordinal`, the character-code order, is proved to be one. Two records
  "tie" when the comparison answers 0 for their names; that can happen for names that differ.
- `heaps.dfy` (`Heaps`): the object heap as an arena. A node's address is its index in a `seq<Node>`,
  `new Node(d)` appends to that sequence, and `null` is `Null`. The ghost address sequence of a chain
  (`Chain`) and the records along it (`Data`) connect pointers to sequences.
- `ordered.dfy` (`Ordered`): what the operations mean on the sequence of records, without pointers.
  This covers sortedness, the first minimum, and insertion before the first greater record, both as the
  code behaves and as it was meant to behave. It also covers the repeated insertion that insertion sort
  performs.
- `drug_list.dfy` (`DrugLists`) and `sorts.dfy` (`Sorts`): the list operations. Each one is a method that
  takes the heap and the list value `DrugList(head, tail, count)` and returns the new ones.

Each method also takes a ghost argument: the address sequence of the chain from `head`. A list is
`Linked` when its tail is the last node of that chain. It is also `Valid` when its count is the chain's
length.

Two operations break `Valid`:

- On a sorted list, `InsertInOrder` never links a record that compares equal to the tail, although it
  still counts it. On an unsorted list the scan may still find a greater node and link the record there.
- `RemoveMin` never moves `tail`.

Both defects are stated as they are written, and each has a corrected partner (see "## Findings").
`InsertSort` inherits the first defect, and the model states exactly which records it loses.

## Model

| member | source | states |
|---|---|---|
| Drugs.Compare | LinkedListofDrugs/Program.cs:65-80 | Two records compare as their names do: the answer is -1, 0 or 1, it flips sign when the records are swapped, and records with equal names compare 0 |
| Drugs.OrdinalIsComparator | LinkedListofDrugs/Program.cs:72 | Character-code lexicographic order meets every assumption the list makes of the name comparison, so the assumptions can be satisfied |
| DrugLists.EmptyValid | LinkedListofDrugs/Program.cs:126 | The list `new DrugList()` makes, with `null` head and tail and count 0, is valid in any heap, and its only chain is the empty one |
| DrugLists.Append | LinkedListofDrugs/Program.cs:166-201 | `null` changes neither heap nor list. Otherwise a new node holding the record goes after the tail and becomes the tail. `head` changes only when the list was empty, and the count grows by one. On a linked list the records become the old records plus the new one, and only the old tail node changes. If the tail is detached from the chain, the head chain and its records stay as they were, so the new record is not on it |
| DrugLists.RemoveFirst | LinkedListofDrugs/Program.cs:258-290 | An empty list answers `null` and is unchanged. Otherwise the answer is the first record, the count drops by one and the chain becomes the old chain without its first node. When head and tail coincide, both become `null`; otherwise the tail is kept. A linked list stays linked. So does a weaker shape: if the tail is the last node of the head chain or no node of it at all, it stays so, which lets repeated `RemoveFirst` take every node of the chain in turn |
| DrugLists.ScanMin | LinkedListofDrugs/Program.cs:301-330 | After the scan, `previous` is the node just before the first minimum among the nodes after the head |
| DrugLists.ScanMinStep | LinkedListofDrugs/Program.cs:323-330 | One turn of the scan: `previous` moves only when `previous.Next` compares greater than `tmp.Next`, so it stays before the first minimum seen so far |
| DrugLists.UnlinkMin | LinkedListofDrugs/Program.cs:320-348 | On two or more nodes, the node unlinked holds the first minimum of all records. It is the scanned minimum when that compares below the head, and the head otherwise. The other records keep their order, the count drops by one, `tail` is untouched and no record changes |
| DrugLists.RemoveMin | LinkedListofDrugs/Program.cs:293-349 | An empty list answers `null`. Otherwise the answer is the first record no other record compares less than, exactly that occurrence is removed, the rest keep their order, and the count drops by one. `tail` never changes. When the removed node was the tail of a linked list, `tail` points at a node that can no longer be reached from `head`. On a linked list, in every case the tail left is the last node of the new chain or no node of it, so `RemoveFirst` can still drain the list |
| DrugLists.StaleTail | LinkedListofDrugs/Program.cs:313-340 | After `RemoveMin` unlinks the node at position k of a linked list, the tail is the last node of the new chain or, when k was the last position, a node no longer reachable from `head` |
| DrugLists.RemoveMinFixed | LinkedListofDrugs/Program.cs:293-349 | The corrected `RemoveMin` removes and returns the same first minimum. A linked list stays linked and a valid list stays valid, because `tail` becomes `null` or moves back to the node before it when the tail is removed |
| DrugLists.UnlinkMinFixed | LinkedListofDrugs/Program.cs:332-348 | The corrected unlink on two or more nodes leaves a linked list whose records are the old ones without the first minimum |
| DrugLists.ScanGreater | LinkedListofDrugs/Program.cs:240-251 | The scan stops on the first node comparing greater than the new record, or at `null` when there is none. `previous` is the node before it |
| DrugLists.InsertInOrder | LinkedListofDrugs/Program.cs:204-254 | It needs the tail to be the last node only when the list has a head. The list stays linked and the count always grows by one. The records become those of the as-written insertion. On a sorted list the result stays sorted. On a sorted list that is empty or whose last record does not compare equal to the new one, the new record goes just before the first greater record and a valid list stays valid. On a sorted list whose last record compares equal to the new one, the records are unchanged and a valid list stops being valid |
| DrugLists.InsertCases | LinkedListofDrugs/Program.cs:209-253 | The four branches of the insertion, as written or corrected: the list stays linked, the count grows by one, only new nodes and nodes of the old chain can be on the new chain, and the records are those of one insertion |
| DrugLists.InsertLinked | LinkedListofDrugs/Program.cs:224-252 | The branches on a non-empty list: a head that compares greater puts the record first; otherwise a tail that passes the tail test (less, or not greater when corrected) puts it last; otherwise it goes before the first greater node the scan finds, and nowhere when there is none. The records are those of one insertion and the count is not changed here |
| DrugLists.InsertAtFront | LinkedListofDrugs/Program.cs:224-228 | A new node before the head becomes the head. The records become the new record followed by the old ones, and no node off the old chain changes |
| DrugLists.InsertAtEnd | LinkedListofDrugs/Program.cs:231-235 | The node made first is abandoned, `Append` links a second node after the tail, and the count is put back, so the records become the old records plus the new one |
| DrugLists.InsertAtScan | LinkedListofDrugs/Program.cs:238-252 | If the scan finds a greater record at position k, the new record goes in at k. Otherwise the records are unchanged. Only the new node and nodes of the old chain can be on the new chain, and the head and tail stay the same |
| DrugLists.InsertAsWrittenFacts | LinkedListofDrugs/Program.cs:204-254 | On sorted records, the as-written insertion keeps them sorted. It is the documented insertion, one record longer, unless the last record compares equal to the new one; then it changes nothing |
| DrugLists.InsertInOrderFixed | LinkedListofDrugs/Program.cs:204-254 | The corrected insertion adds exactly one record (as a multiset) and grows the chain and the count by one. A valid list stays valid |
| DrugLists.ToArray | LinkedListofDrugs/Program.cs:397-409 | The array has `count` slots. The first slots hold the chain's records in order, and the rest are `null`. `None` stands for the exception the code raises, and it comes exactly when the count is negative or shorter than the chain |
| DrugLists.Enumeration | LinkedListofDrugs/Program.cs:414-425 | The records along the chain from the head, in order |
| Ordered.FirstGreater | LinkedListofDrugs/Program.cs:240-251 | No record before the answer compares greater than the new record, and the record at the answer (if any) does |
| Ordered.FirstGreaterUnique | LinkedListofDrugs/Program.cs:240-251 | Any position with those two properties is the one `FirstGreater` gives |
| Ordered.MinStep | LinkedListofDrugs/Program.cs:325-327 | Moving the candidate onto a strictly smaller record keeps it the first minimum seen so far |
| Ordered.MinKeep | LinkedListofDrugs/Program.cs:325-329 | Keeping the candidate when the next record is not strictly smaller keeps it the first minimum seen so far |
| Ordered.MinDone | LinkedListofDrugs/Program.cs:323-332 | At the end of the scan, the candidate is the first minimum of the records after the head |
| Ordered.MinAfterHead | LinkedListofDrugs/Program.cs:336-341 | A scanned minimum that compares below the head is the first minimum of all records |
| Ordered.MinAtHead | LinkedListofDrugs/Program.cs:342-348 | Otherwise the head is the first minimum, so ties go to the head |
| Ordered.MinRemoved | LinkedListofDrugs/Program.cs:332-340 | Removing the first minimum takes exactly that record out of the multiset, and it is at most every record left |
| Ordered.InsertBeforeGreaterSorted | LinkedListofDrugs/Program.cs:203-204 | Inserting before the first greater record keeps a sorted sequence sorted and adds exactly that record |
| Ordered.InsertAsWritten | LinkedListofDrugs/Program.cs:215-252 | The as-written insertion never leaves an empty list, and it either returns the records unchanged or puts the new record in at one position with the others in their old order |
| Ordered.InsertFixed | LinkedListofDrugs/Program.cs:204-254 | The corrected insertion (tail test `!= 1` at line 231) always puts the new record in at one position with the others in their old order |
| Ordered.InsertAsWrittenNormal | LinkedListofDrugs/Program.cs:221-252 | On sorted records whose last record does not compare equal to the new one (or no records), the as-written insertion is insertion before the first greater record |
| Ordered.InsertAsWrittenDropsTie | LinkedListofDrugs/Program.cs:231-252 | On sorted records whose last record compares equal to the new one, the as-written insertion returns the records unchanged, so a new record is not added |
| Ordered.InsertTieExample | LinkedListofDrugs/Program.cs:231-252 | Inserting a second "Zinc" into a one-record list holding "Zinc" leaves `[p]`, where the documented insertion gives `[p, q]` |
| Ordered.InsertUnsortedTieExample | LinkedListofDrugs/Program.cs:231-252 | On the unsorted records "Alpha", "Gamma", "Beta", a second "Beta" compares equal to the tail, and the scan still links it in before "Gamma", so the drop needs sorted records |
| Ordered.InsertAsWrittenSorted | LinkedListofDrugs/Program.cs:221-252 | The as-written insertion keeps sorted records sorted |
| Ordered.InsertFixedAddsOne | LinkedListofDrugs/Program.cs:203-204 | The corrected insertion adds exactly the new record, whatever the order of the records |
| Ordered.InsertFixedSorted | LinkedListofDrugs/Program.cs:203-204 | On sorted records, the corrected insertion is insertion before the first greater record and stays sorted |
| Ordered.NoneGreater | LinkedListofDrugs/Program.cs:231 | On sorted records whose last does not compare greater than the new record, no record does |
| Ordered.InsertAll | LinkedListofDrugs/Program.cs:375-393 | Repeated as-written insertion never yields more records than it was given, and yields none exactly when it was given none |
| Ordered.InsertAllFacts | LinkedListofDrugs/Program.cs:375-393 | Repeated as-written insertion yields sorted records. These hold every input record except exactly those that tie the running maximum, and the last of them is a maximum of the input |
| Ordered.InsertAllTie | LinkedListofDrugs/Program.cs:231-252 | A record tying the last of the records built so far is dropped, and the invariant of repeated insertion is kept |
| Ordered.InsertAllKeep | LinkedListofDrugs/Program.cs:221-252 | Any other record is inserted before the first greater one, and the invariant of repeated insertion is kept |
| Ordered.InsertStepTie | LinkedListofDrugs/Program.cs:231-252 | A record tying the last of the records built so far ties the running maximum of the input seen so far |
| Ordered.InsertStepNoTie | LinkedListofDrugs/Program.cs:231-252 | A record that does not compare equal to the last of the records built so far does not tie the running maximum |
| Ordered.InsertStepMax | LinkedListofDrugs/Program.cs:221-252 | After such a record is inserted, the last record is again a maximum of the input seen so far |
| Ordered.KeepMultiset | LinkedListofDrugs/Program.cs:383-387 | Inserting a record that does not tie keeps "records built plus records lost is the input" as multisets |
| Ordered.DroppedEmpty | LinkedListofDrugs/Program.cs:375-393 | Insertion sort loses nothing exactly when no record ties the running maximum of those before it |
| Ordered.NoEqualPairNoTies | LinkedListofDrugs/Program.cs:375-393 | When no two records compare equal, no record ties the running maximum, so nothing is lost |
| Ordered.NoEqualPairKeepAll | LinkedListofDrugs/Program.cs:375-393 | When no two records compare equal, repeated as-written insertion yields a sorted permutation of its input |
| Ordered.InsertAllFixedSorted | LinkedListofDrugs/Program.cs:375-393 | Repeated corrected insertion yields a sorted permutation of its input |
| Sorts.TakeMin | LinkedListofDrugs/Program.cs:359 | `tmp = RemoveMin()`. The answer is `null` exactly when nothing is left. Otherwise it is the first minimum of what is left, and the chain left is the rest without it |
| Sorts.SelectSort | LinkedListofDrugs/Program.cs:353-372 | The list becomes valid, with its count equal to the starting chain's length, and holds a sorted permutation of the starting records. Only nodes of the starting chain and new nodes change. This holds whatever the starting count and tail |
| Sorts.SelectStep | LinkedListofDrugs/Program.cs:362-367 | One turn keeps the sort's invariant and shortens what is left plus what is pending, so the loop terminates |
| Sorts.AppendHalf | LinkedListofDrugs/Program.cs:365 | Appending the pending minimum keeps the sorted list sorted and at most every record left |
| Sorts.TakeHalf | LinkedListofDrugs/Program.cs:366 | Taking the next minimum restores the invariant without making what is left longer |
| Sorts.SelectStart | LinkedListofDrugs/Program.cs:358-359 | The first `RemoveMin` into an empty sorted list sets up the invariant |
| Sorts.SelectDone | LinkedListofDrugs/Program.cs:362-371 | When nothing is pending, the sorted list is valid and holds a sorted permutation of the starting records |
| Sorts.OrderStart | LinkedListofDrugs/Program.cs:358-359 | Taking out the first minimum starts the selection |
| Sorts.OrderAppend | LinkedListofDrugs/Program.cs:365 | Appending the pending record keeps the selection in order |
| Sorts.OrderTake | LinkedListofDrugs/Program.cs:366 | Taking the next minimum keeps the selection in order |
| Sorts.InsertSort | LinkedListofDrugs/Program.cs:375-393 | The records become those inserted one by one, as written, in starting order. They are sorted and hold every starting record except those tying the running maximum. The count is the starting length, so the list is valid exactly when no record ties. No node of the starting heap changes. This holds whether the tail is the last node of the chain or a node `RemoveMin` left behind |
| Sorts.InsertSortFixed | LinkedListofDrugs/Program.cs:375-393 | With the corrected insertion, the list becomes valid and holds a sorted permutation of the starting records, also when the tail is a node `RemoveMin` left behind |
| Sorts.InsertTurn | LinkedListofDrugs/Program.cs:383-387 | One turn inserts the pending record and removes the next first record; one more starting record has been inserted |
| Sorts.InsertStart | LinkedListofDrugs/Program.cs:380-381 | An empty sorted list and the first `RemoveFirst` set up the invariant, whatever tail `RemoveMin` may have left |
| Sorts.InsertHalf | LinkedListofDrugs/Program.cs:385 | `sortedList.InsertInOrder(tmp)` takes one more starting record into the records built, and leaves the rest of the list alone |
| Sorts.InsertHalfFixed | LinkedListofDrugs/Program.cs:385 | The same with the corrected insertion |
| Sorts.FirstHalf | LinkedListofDrugs/Program.cs:386 | `tmp = RemoveFirst()` makes the next starting record pending |
| Sorts.InsertDone | LinkedListofDrugs/Program.cs:383-391 | When nothing is pending, every starting record has been inserted and the count is the starting length |
| Sorts.InsertSortDone | LinkedListofDrugs/Program.cs:389-391 | At the end of `InsertSort` the list is what its contract states |
| Sorts.InsertSortFixedDone | LinkedListofDrugs/Program.cs:389-391 | At the end of the corrected sort the list is valid and holds a sorted permutation |

## Left out

- `AppendFromFile` and the file constructor (`Program.cs:127-163`): these are file input and the parsing
  of floating-point fields.
- The `double` fields of `Drug` and `Drug.ToString`: floating point and formatting. A `Drug` keeps its
  name, identifier, unit and integer fields as payload the list never inspects.
- `Console.WriteLine(count)` inside `SelectSort` and the program's `Main`: console output only.
- The `ArgumentException` branches of `Drug.CompareTo` and `Node.CompareTo` (`Program.cs:76-79`,
  `:112-115`): the list code only ever compares nodes with nodes, so the `Node` branch is not reached. A
  `null` record does reach the `Drug` branch, through `InsertInOrder(null)` (see below). The model takes
  records, never `null`, so it leaves both branches out.
- `Drug` is a value here, while in C# it is a reference type. Two distinct records with identical fields
  are therefore the same value, and the multiset (permutation) results of the sorts cannot tell them
  apart. The list never compares records by reference and a `Drug` is never mutated, so no operation
  behaves differently.
- Drugs.Compare: does not model culture-sensitive string comparison. Any comparator with the three stated
  properties stands for it.
- Drugs.Compare: assumes the comparison answers exactly -1, 0 or 1. `string.CompareTo` promises only the
  sign of its answer, while the code tests for `== 1` and `== -1` (`Program.cs:224`, `:231`, `:242`,
  `:325`, `:336`). A comparison that answered another positive or negative number would take other
  branches, and the model does not cover that.
- DrugLists.InsertInOrder: takes a `Drug`, not a possibly-`null` reference, so inserting `null` is not
  modelled. On an empty list the code would link a node with no record (`Program.cs:215-219`). On a
  non-empty list the head test (`:224`) goes through `Node.CompareTo` to `Drug.CompareTo(null)`, which
  throws `ArgumentException` (`:70`, `:78`) before head, tail or count change.
- DrugLists.InsertInOrder: requires the tail to be the last node of the head chain whenever the list
  has a head. On a non-empty list whose tail is detached, the tail test reads an unrelated node and
  `Append` links the record after it, off the chain; that case is not modelled.
- DrugLists.Append: requires a tail that is a node whenever the list has a head. Otherwise the code
  throws a null-reference exception, which is not modelled.
- The count is an unbounded integer. The code's 32-bit `int` could wrap only after more than two billion
  insertions.
- Nodes are never freed. The node that the tail case of `InsertInOrder` creates and then abandons stays
  in the arena, as it stays in memory until collected.
- `Enumeration` is a lazy `yield return` sequence. The model returns the whole sequence at once, so it
  does not model a list changed in the middle of an enumeration.

## Findings

| source | as written | input that shows it | evidently intended | confidence | as-written member | corrected member |
|---|---|---|---|---|---|---|
| LinkedListofDrugs/Program.cs:231-253 | The tail test is `tail.CompareTo(sortedList) == -1`. On a sorted list, a record that compares equal to the tail (`CompareTo` returns 0) falls through to the scan, which finds no greater node and links it nowhere, while `count++` still runs | A list holding one drug "Zinc", then inserting another drug named "Zinc": the list still holds one node and its count is 2 | Insert the record after every record not greater than it, i.e. the tail test is `!= 1`, so every record is linked in | high, not executed | Ordered.InsertAsWrittenDropsTie, Ordered.InsertTieExample, Ordered.InsertUnsortedTieExample, DrugLists.InsertInOrder, Sorts.InsertSort | Ordered.InsertFixedSorted, DrugLists.InsertInOrderFixed, Ordered.InsertAllFixedSorted, Sorts.InsertSortFixed |
| LinkedListofDrugs/Program.cs:313-340 | `RemoveMin` never assigns `tail`. Removing the only node, or a minimum that is the last node, leaves `tail` on a node that is no longer reachable from `head` | A list whose last node holds the least name, e.g. "Beta" then "Alpha": after `RemoveMin` the tail is still the "Alpha" node | `tail` becomes `null` with the last node, or moves back to the node before the one removed | high, not executed | DrugLists.RemoveMin | DrugLists.RemoveMinFixed, DrugLists.UnlinkMinFixed |
