# Medication reminder with refill alerts — a Dafny model of its data structures

The system is a console program that keeps medications in three in-memory
containers: a singly linked list, the registry, with its records head first; a
history stack of the records added, held in a fixed array of 20 with a `top`
index; and a circular queue of refill alerts, held in a fixed array of 20 with
`front`, `rear` and `count`. On top of these sit a substring search and two
quadratic sorts of an array snapshot: bubble sort and selection sort, keyed by
name, price or quantity.

The model follows `medication_system.c`:

- `records.dfy` (module `Records`) holds the `Medication` record, the zero
  record that `pop` and `dequeue` hand back when empty, and the status values
  that replace the program's printed messages.
- `cstrings.dfy` (module `CStrings`) holds `strcmp`, reduced to its sign, and
  `strstr`. Each comes with a reference definition it is proved against: the
  lexicographic order and substring containment.
- `registry.dfy` (module `Registry`) models the linked list as the sequence of
  its records, head first. Insert, delete, update, count, and the
  lookup-by-id of the "add refill alert" action are all here.
- `history.dfy` (module `History`) models the stack as a datatype of 20 slots
  plus `top`. Its abstraction `Entries` lists the stacked records, bottom
  first.
- `alerts.dfy` (module `Alerts`) models the queue as a datatype of 20 slots
  plus `front`, `rear` and `count`. Its abstraction `Pending` lists the
  `count` slots read from `front` with wrap-around.
- `search.dfy` (module `Search`) models `linearSearch`.
- `sorting.dfy` (module `Sorting`) models the snapshot step of
  `sortMedications`, `bubbleSort` and `selectionSort`.
- `system.dfy` (module `MedicationSystem`) collects the three globals into an
  explicit `Session` value. It also holds `initializeSystem` and the "add
  refill alert" action.

Every status message the program prints is modelled as a returned value. The
sorts work on a local copy, as the program sorts a `malloc`'d copy, so the
registry is never reordered.

Points about the code's behaviour that the model makes explicit:

- The code has no duplicate-id check on insert or on update, so the model
  has none either. A later record with a reused id shadows earlier ones for
  delete, update and the alert lookup, because all of them act on the first
  match from the head.
- `strstr` finds "in" inside "Zinc", so a search for "in" over the three
  records Metformin, Zinc and Aspirin returns all three
  (`Search.SearchInFindsZinc`).
- Bubble sort and selection sort agree when no two records share the key
  (`Sorting.SortedPermutationIsUnique`). With ties they can differ, because
  selection sort is not stable: quantities A=2, B=2, C=1 give C, A, B under
  bubble sort and C, B, A under selection sort.
- Bubble sort swaps only on a strict `>`, so it is stable, and
  `Sorting.BubbleSort` proves it.

## Model

| member | source | states |
|---|---|---|
| CStrings.StrCmp | medication_system.c:608 | `strcmp` on names, reduced to a sign in {-1, 0, 1}; it is 0 exactly when the two strings are equal |
| CStrings.StrCmpIsLexLess | medication_system.c:636 | `strcmp(a, b) < 0` holds exactly when `a` is a proper prefix of `b`, or `a` has the smaller character at the first difference |
| CStrings.StrCmpAntisymmetric | medication_system.c:636 | swapping the arguments flips the sign of `strcmp`, so selection sort's `< 0` test is bubble sort's `> 0` test with the arguments exchanged |
| CStrings.StrCmpTransitive | medication_system.c:608 | `strcmp(a, b) <= 0` and `strcmp(b, c) <= 0` imply `strcmp(a, c) <= 0` |
| CStrings.StrStr | medication_system.c:542-543 | `strstr` returns the first position where the needle occurs, and NULL exactly when the needle is not a substring; an empty needle is found at 0 |
| Registry.FindFirst | medication_system.c:405-406 | the walk from the head finds a position holding the id with no earlier node holding it, and finds nothing exactly when no node holds the id |
| Registry.InsertMedication | medication_system.c:347-356 | the new record becomes the head: the list grows by one, its first node is the inserted record, which is therefore the first hit for its id, and the old nodes follow in their old order |
| Registry.InsertAllReversesOrder | medication_system.c:354-356 | successive inserts leave the list in reverse insertion order, ahead of the earlier nodes, and the count grows by the number of inserts |
| Registry.MedicationCount | medication_system.c:666-674 | the counting walk returns the number of nodes |
| Registry.DeleteMedication | medication_system.c:361-399 | an empty list reports no medications; an absent id leaves the list unchanged and reports not found; otherwise exactly the first node with the id is unlinked, and putting it back at its position restores the list (the others keep their order), with the multiset shrinking by that record |
| Registry.DeleteUndoesInsert | medication_system.c:380-384 | deleting the id of the record just inserted hits the head and gives back the list from before the insert, even when older nodes share the id |
| Registry.UpdateMedication | medication_system.c:402-420 | reports found exactly when some node holds the id; the first such node receives the new record with `medicationId` forced back to the id, every other node is untouched, and an absent id changes nothing |
| Registry.UpdateKeepsIds | medication_system.c:411-412 | after an update every node keeps its id, and looking up the id again finds the same node |
| Registry.LookupMedication | medication_system.c:205-215 | the record that the "add refill alert" action enqueues is the one at the first node holding the id; it is found exactly when some node holds the id |
| History.EmptyHistory | medication_system.c:269 | the initial stack (`top == -1`) satisfies the invariant and holds no entries |
| History.IsStackEmpty | medication_system.c:472-474 | `top == -1` holds exactly when the stack holds no entries |
| History.PushMedication | medication_system.c:440-447 | `top` stays in [-1, 19]; a push onto a full stack changes nothing and reports full; otherwise the record is appended on top of the entries |
| History.PopMedication | medication_system.c:449-457 | `top` stays in [-1, 19]; a pop from an empty stack changes nothing and returns the zero record; otherwise it removes and returns the top entry |
| History.PushThenPop | medication_system.c:440-457 | a push onto a stack with room, then a pop, returns the pushed record and restores `top` and the entries |
| History.FullStackIgnoresPushes | medication_system.c:441-444 | any number of pushes onto a full stack leave it exactly as it was |
| History.MostRecent | medication_system.c:157-159 | the entry shown as the most recent is absent exactly when the stack is empty, and is otherwise the last entry pushed |
| History.HistoryMostRecentFirst | medication_system.c:466-469 | the walk from `top` down to 0 yields the entries in reverse push order |
| Alerts.EmptyAlerts | medication_system.c:270-272 | the initial indices (`front` 0, `rear` -1, `count` 0) satisfy the queue invariant, and nothing is pending |
| Alerts.IsQueueEmpty | medication_system.c:518-520 | `count == 0` holds exactly when nothing is pending |
| Alerts.IsQueueFull | medication_system.c:522-524 | `count == 20` holds exactly when 20 alerts are pending |
| Alerts.EnqueueMedication | medication_system.c:476-487 | keeps `0 <= count <= 20`, `0 <= front < 20` and `(rear + 1) mod 20 == (front + count) mod 20`; on a full queue nothing changes and it reports full; otherwise the record is appended to the pending alerts |
| Alerts.DequeueMedication | medication_system.c:489-501 | keeps the same invariant; on an empty queue nothing changes and the zero record comes back; otherwise the oldest pending alert is removed and returned |
| Alerts.EnqueueThenDequeue | medication_system.c:476-501 | an enqueue onto an empty queue, then a dequeue, returns the enqueued record and restores `count` |
| Alerts.QueueIsFifo | medication_system.c:476-501 | over any sequence of enqueues and dequeues, the records handed out followed by those still pending equal the records pending at the start followed by the accepted enqueues |
| Alerts.AlertsInOrder | medication_system.c:510-515 | the walk of `count` slots from `front` with the index wrapping modulo 20 lists the pending alerts oldest first |
| Search.LinearSearch | medication_system.c:535-548 | every result's name contains the query or is contained in it, and every list record related in that way is among the results |
| Search.SearchKeepsListOrder | medication_system.c:541-547 | searching a list made of two parts returns the first part's results and then the second's, so results keep list order |
| Search.SearchOneRecord | medication_system.c:542-543 | a single record is returned exactly when its name and the query contain one another in either direction |
| Search.EmptyQueryMatchesAll | medication_system.c:542 | an empty query returns the whole list in list order |
| Search.EmptyNameMatchesAll | medication_system.c:543 | a record with an empty name matches every query |
| Search.SearchInFindsZinc | medication_system.c:542-543 | searching Metformin, Zinc and Aspirin for "in" returns all three |
| Sorting.PrecedesIsSwappedOutOfOrder | medication_system.c:634-644 | selection sort's "strictly less" test is bubble sort's "strictly greater" test with the arguments exchanged, for every key code |
| Sorting.NotOutOfOrderTransitive | medication_system.c:606-616 | "not greater" under the chosen key is transitive |
| Sorting.OutOfOrderAsymmetric | medication_system.c:606-616 | "greater" is asymmetric, and two records one of which is greater carry different keys |
| Sorting.SwapNeighboursKeepsGroups | medication_system.c:618-622 | exchanging two neighbours where the first is strictly greater keeps every group of equal-key records in its order |
| Sorting.BubblePass | medication_system.c:603-623 | one inner pass carries a greatest record of positions 0 to `last` to `last`; it leaves everything after `last` alone and keeps the records, the equal-key order, and the partition against the sorted suffix |
| Sorting.BubbleExchange | medication_system.c:618-622 | an exchange within a pass moves the greater record forward and keeps the pass's other facts |
| Sorting.BubbleSort | medication_system.c:601-625 | the result is a permutation of the input and ascending by the key; records with equal keys keep their relative order; an unknown key code leaves the input unchanged |
| Sorting.SelectionSort | medication_system.c:627-657 | the result is a permutation of the input and ascending by the key; an unknown key code leaves the input unchanged |
| Sorting.Snapshot | medication_system.c:562-569 | the copy loop yields the registry's records head first |
| Sorting.SortMedications | medication_system.c:555-599 | an empty registry reports nothing to sort; an algorithm code other than 1 or 2 reports an error; otherwise the result is an ascending permutation of the registry, stable under bubble sort; an unknown key code returns the records in registry order |
| Sorting.SortedPermutationIsUnique | medication_system.c:585-590 | two ascending permutations of the same records are equal when no two records share the key, so the two algorithms then agree |
| MedicationSystem.InitializeSystem | medication_system.c:267-273 | the initial session satisfies both index invariants, and its list, history and alert queue are all empty |
| MedicationSystem.AddRefillAlert | medication_system.c:205-219 | an unknown id changes nothing and is reported; otherwise a copy of the first record holding the id is enqueued (or refused with full when 20 alerts are pending), and the registry and history are untouched |

## Left out

- The menu loop and all input handling are not modelled: `main`'s switch
  (apart from the refill-alert lookup), `displayMenu`, `getMenuChoice`,
  `createMedication` and `searchMedication`. This is interactive I/O, so the
  model takes parsed values as parameters. The updated record is the `edited`
  parameter of `UpdateMedication`, and the sort codes are parameters of
  `SortMedications`.
- Every `display*` function and every `printf` is left out, because they only
  render. Their status messages are returned values. The display walks that
  fix an order are kept: `HistoryMostRecentFirst`, `AlertsInOrder` and
  `Snapshot`.
- `malloc` and `free` are left out, along with the allocation-failure branch
  of `insertMedication`. Insertion always succeeds in the model.
- `main` pushes every created record onto the history right after
  inserting it. This happens even when the insert failed. The model treats
  that as part of the menu loop and leaves it out.
- `populateSampleData` only prints, so it is left out.
- `price` is modelled as an `int`, an abstract totally ordered key such as
  cents. IEEE `float` behaviour, NaN included, is not modelled.
- The fixed buffer sizes (`name[50]`, `dosage[20]`, `nextRefillDate[12]`)
  and `scanf` overflow are not modelled. Strings are unbounded and assumed
  free of NUL characters.
- 32-bit `int` overflow of ids, quantities and the node counter is not
  modelled. The code does no arithmetic on ids or quantities, and the
  counter overflows only past 2^31 nodes.
- CStrings.StrCmp: returns only the sign of `strcmp`, not the byte
  difference. The code only ever tests the sign.
- Alerts.EnqueueThenDequeue: speaks of the pending alerts and `count`, not
  the raw array. The enqueue overwrote a free slot, and the dequeue does not
  restore that slot's old value.
- History.PushThenPop: speaks of `top` and the entries, not the raw array.
  The push overwrote the slot above `top`, and the pop does not restore that
  slot's old value.
- MedicationSystem.AddRefillAlert: reports the queue's status along with
  the record. The program prints "Refill alert added" even when the queue
  refused the alert.
