/** The medication registry: the singly linked list `medicationList`, modelled
    as the sequence of its records read from the head. */
module Registry {
  import opened Records

  /** The records of the list, head first. */
  type MedicationList = seq<Medication>

  /** Some node of the list carries `id`. */
  predicate HasId(list: MedicationList, id: int) {
    exists k | 0 <= k < |list| :: list[k].medicationId == id
  }

  /** The position of the first node carrying `id`, as a head-to-tail walk
      comparing `medicationId` finds it. */
  function FindFirst(list: MedicationList, id: int): (r: Option<nat>)
    ensures r.Some? ==> r.value < |list| && list[r.value].medicationId == id
    ensures r.Some? ==> forall j :: 0 <= j < r.value ==> list[j].medicationId != id
    ensures r.None? <==> !HasId(list, id)
  {
    if |list| == 0 then None
    else if list[0].medicationId == id then Some(0)
    else
      match FindFirst(list[1..], id)
      case None =>
        assert forall k :: 1 <= k < |list| ==> list[k] == list[1..][k - 1];
        None
      case Some(k) => Some(k + 1)
  }

  /** `insertMedication`: a new node holding a copy of `med` becomes the head. */
  function InsertMedication(list: MedicationList, med: Medication): (r: MedicationList)
    ensures |r| == |list| + 1
    ensures r[0] == med
    ensures FindFirst(r, med.medicationId) == Some(0)
    ensures forall i :: 0 <= i < |list| ==> r[i + 1] == list[i]
  {
    [med] + list
  }

  /** Inserting `meds[0]`, then `meds[1]`, and so on. */
  function InsertAll(list: MedicationList, meds: seq<Medication>): (r: MedicationList)
    decreases |meds|
  {
    if |meds| == 0 then list else InsertAll(InsertMedication(list, meds[0]), meds[1..])
  }

  /** Because every insert prepends, a list built by successive inserts reads
      in reverse insertion order, ahead of what was already there, and its
      length grows by the number of inserts. */
  lemma {:induction false} InsertAllReversesOrder(list: MedicationList, meds: seq<Medication>)
    ensures InsertAll(list, meds) == Reversed(meds) + list
    ensures |InsertAll(list, meds)| == |list| + |meds|
    decreases |meds|
  {
    if |meds| > 0 {
      InsertAllReversesOrder(InsertMedication(list, meds[0]), meds[1..]);
      assert Reversed(meds) == Reversed(meds[1..]) + [meds[0]];
    }
  }

  /** `getMedicationCount`: walks the list counting nodes. */
  method MedicationCount(list: MedicationList) returns (count: nat)
    ensures count == |list|
  {
    count := 0;
    var current := list;
    while current != []
      invariant count + |current| == |list|
      decreases |current|
    {
      count := count + 1;
      current := current[1..];
    }
  }

  /** What `deleteMedication` reports. */
  datatype DeleteOutcome = NoMedications | NotFound | Deleted(med: Medication)

  /** `deleteMedication`: an empty list is reported as such; a matching head
      is unlinked directly; otherwise the walk unlinks the first matching node
      after it, or reports that the id was not found. */
  function DeleteMedication(list: MedicationList, id: int): (r: (MedicationList, DeleteOutcome))
    ensures |list| == 0 ==> r == (list, NoMedications)
    ensures |list| > 0 && !HasId(list, id) ==> r == (list, NotFound)
    ensures HasId(list, id) ==>
      var k := FindFirst(list, id).value;
      r.1 == Deleted(list[k]) && |r.0| == |list| - 1 && list == r.0[..k] + [list[k]] + r.0[k..]
    ensures r.1.Deleted? ==>
      r.1.med.medicationId == id && |r.0| == |list| - 1 &&
      multiset(r.0) + multiset{r.1.med} == multiset(list)
  {
    if |list| == 0 then (list, NoMedications)
    else if list[0].medicationId == id then
      assert list == [list[0]] + list[1..];
      (list[1..], Deleted(list[0]))
    else
      var tail := list[1..];
      var (rest, outcome) := DeleteMedication(tail, id);
      assert list == [list[0]] + tail;
      if outcome.Deleted? then
        SpliceBehindHead(list[0], tail, rest, FindFirst(tail, id).value);
        ([list[0]] + rest, outcome)
      else
        ([list[0]] + rest, NotFound)
  }

  /** If `tail` is `rest` with one record spliced in at `k`, then the list
      with a head in front is the extended `rest` with that record spliced in
      at `k + 1`, and the two differ by that one record. */
  lemma SpliceBehindHead(head: Medication, tail: MedicationList, rest: MedicationList, k: nat)
    requires k < |tail| && |rest| == |tail| - 1
    requires tail == rest[..k] + [tail[k]] + rest[k..]
    ensures var r := [head] + rest;
      [head] + tail == r[..k + 1] + [tail[k]] + r[k + 1..]
    ensures multiset(rest) + multiset{tail[k]} == multiset(tail)
  {
    var r := [head] + rest;
    assert r[..k + 1] == [head] + rest[..k];
    assert r[k + 1..] == rest[k..];
    assert rest == rest[..k] + rest[k..];
  }

  /** Deleting the id of the record just inserted removes exactly that
      record, whatever else carries the same id. */
  lemma DeleteUndoesInsert(list: MedicationList, med: Medication)
    ensures DeleteMedication(InsertMedication(list, med), med.medicationId) == (list, Deleted(med))
  {
  }

  /** `updateMedication`: the first node carrying `id` receives the new
      record with its `medicationId` forced back to `id`; the result says
      whether such a node existed. */
  function UpdateMedication(list: MedicationList, id: int, edited: Medication): (r: (MedicationList, bool))
    ensures r.1 <==> HasId(list, id)
    ensures |r.0| == |list|
    ensures !r.1 ==> r.0 == list
    ensures r.1 ==>
      var k := FindFirst(list, id).value;
      r.0[k] == edited.(medicationId := id) &&
      forall j :: 0 <= j < |list| && j != k ==> r.0[j] == list[j]
  {
    if |list| == 0 then (list, false)
    else if list[0].medicationId == id then ([edited.(medicationId := id)] + list[1..], true)
    else
      var (rest, found) := UpdateMedication(list[1..], id, edited);
      assert forall j :: 1 <= j < |list| ==> ([list[0]] + rest)[j] == rest[j - 1];
      ([list[0]] + rest, found)
  }

  /** An update never changes which ids the list holds: the updated node
      keeps its id, so looking the id up again finds the same position. */
  lemma {:induction false} UpdateKeepsIds(list: MedicationList, id: int, edited: Medication)
    ensures var r := UpdateMedication(list, id, edited).0;
      (forall j :: 0 <= j < |list| ==> r[j].medicationId == list[j].medicationId) &&
      FindFirst(r, id) == FindFirst(list, id)
  {
    var r := UpdateMedication(list, id, edited).0;
    assert forall j :: 0 <= j < |list| ==> r[j].medicationId == list[j].medicationId;
    match FindFirst(list, id)
    case None =>
      assert !HasId(r, id);
    case Some(k) =>
      assert r[k].medicationId == id;
      assert forall j :: 0 <= j < k ==> r[j].medicationId != id;
  }

  /** The lookup `main` performs before queueing a refill alert: the record of
      the first node carrying `id`, if any. */
  function LookupMedication(list: MedicationList, id: int): (r: Option<Medication>)
    ensures r.Some? <==> HasId(list, id)
    ensures r.Some? ==> r.value == list[FindFirst(list, id).value]
  {
    if |list| == 0 then None
    else if list[0].medicationId == id then Some(list[0])
    else LookupMedication(list[1..], id)
  }
}
