/** The medication history: a stack held in a fixed array of 20 records with
    a `top` index that is -1 when the stack is empty. */
module History {
  import opened Records

  const StackSize: nat := 20

  /** `MedicationStack`: the 20 slots and the index of the top entry. */
  datatype MedicationStack = MedicationStack(items: seq<Medication>, top: int)

  /** The array has its fixed size and `top` stays in [-1, 19]. */
  predicate Valid(s: MedicationStack) {
    |s.items| == StackSize && -1 <= s.top < StackSize
  }

  /** The entries currently on the stack, bottom first: slots 0 through `top`. */
  function Entries(s: MedicationStack): (r: seq<Medication>)
    requires Valid(s)
  {
    s.items[..s.top + 1]
  }

  /** The history `initializeSystem` leaves: `top == -1`, and the global array
      zero-initialised. */
  function EmptyHistory(): (s: MedicationStack)
    ensures Valid(s) && Entries(s) == []
  {
    MedicationStack(seq(StackSize, _ => ZeroMedication), -1)
  }

  /** `isStackEmpty`. */
  predicate IsStackEmpty(s: MedicationStack)
    requires Valid(s)
    ensures IsStackEmpty(s) <==> Entries(s) == []
  {
    s.top == -1
  }

  /** `pushMedication`: on a full stack nothing changes and `Full` is
      reported; otherwise `med` becomes the new top entry. */
  function PushMedication(s: MedicationStack, med: Medication): (r: (MedicationStack, Status))
    requires Valid(s)
    ensures Valid(r.0)
    ensures |Entries(s)| == StackSize ==> r == (s, Full)
    ensures |Entries(s)| < StackSize ==> r.1 == Done && Entries(r.0) == Entries(s) + [med]
  {
    if s.top >= StackSize - 1 then (s, Full)
    else
      var r := MedicationStack(s.items[s.top + 1 := med], s.top + 1);
      assert Entries(r) == Entries(s) + [med];
      (r, Done)
  }

  /** `popMedication`: on an empty stack nothing changes and the zero record
      is returned with `Empty`; otherwise the top entry is removed and
      returned. */
  function PopMedication(s: MedicationStack): (r: (MedicationStack, Medication, Status))
    requires Valid(s)
    ensures Valid(r.0)
    ensures Entries(s) == [] ==> r == (s, ZeroMedication, Empty)
    ensures Entries(s) != [] ==> r.2 == Done && Entries(s) == Entries(r.0) + [r.1]
  {
    if IsStackEmpty(s) then (s, ZeroMedication, Empty)
    else
      var r := MedicationStack(s.items, s.top - 1);
      assert Entries(s) == Entries(r) + [s.items[s.top]];
      (r, s.items[s.top], Done)
  }

  /** A push onto a stack with room, followed by a pop, hands back the pushed
      record and restores `top` and the entries below it. */
  lemma PushThenPop(s: MedicationStack, med: Medication)
    requires Valid(s) && s.top < StackSize - 1
    ensures var (after, popped, status) := PopMedication(PushMedication(s, med).0);
      popped == med && status == Done && after.top == s.top && Entries(after) == Entries(s)
  {
    var pushed := PushMedication(s, med).0;
    assert Entries(pushed) == Entries(s) + [med];
  }

  /** A push onto a full stack leaves all twenty entries as they were, so
      repeated pushes never disturb them. */
  lemma {:induction false} FullStackIgnoresPushes(s: MedicationStack, meds: seq<Medication>)
    requires Valid(s) && s.top == StackSize - 1
    ensures PushAll(s, meds) == s
    decreases |meds|
  {
    if |meds| > 0 {
      FullStackIgnoresPushes(PushMedication(s, meds[0]).0, meds[1..]);
    }
  }

  /** Pushing `meds[0]`, then `meds[1]`, and so on. */
  function PushAll(s: MedicationStack, meds: seq<Medication>): (r: MedicationStack)
    requires Valid(s)
    ensures Valid(r)
    decreases |meds|
  {
    if |meds| == 0 then s else PushAll(PushMedication(s, meds[0]).0, meds[1..])
  }

  /** The entry `main` shows as the most recent addition: the slot at `top`,
      read only when the stack is not empty. */
  function MostRecent(s: MedicationStack): (r: Option<Medication>)
    requires Valid(s)
    ensures r.None? <==> Entries(s) == []
    ensures r.Some? ==> r.value == Entries(s)[|Entries(s)| - 1]
  {
    if IsStackEmpty(s) then None else Some(s.items[s.top])
  }

  /** The walk of `displayMedicationHistory`: slots from `top` down to 0,
      so the history reads most recent first. */
  method HistoryMostRecentFirst(s: MedicationStack) returns (view: seq<Medication>)
    requires Valid(s)
    ensures view == Reversed(Entries(s))
  {
    view := [];
    var i := s.top;
    while i >= 0
      invariant -1 <= i <= s.top
      invariant |view| == s.top - i
      invariant forall k :: 0 <= k < |view| ==> view[k] == s.items[s.top - k]
    {
      view := view + [s.items[i]];
      i := i - 1;
    }
  }
}
