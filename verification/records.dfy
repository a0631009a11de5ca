/** The record type shared by every container of the medication system,
    and the small result wrappers the operations return instead of printing. */
module Records {

  /** Refill information nested inside a medication record. */
  datatype RefillInfo = RefillInfo(refillsRemaining: int, nextRefillDate: string)

  /** One medication. `price` is an abstract totally ordered key (for instance
      cents); the C `float` is not modelled. Strings are unbounded. */
  datatype Medication = Medication(
    medicationId: int,
    name: string,
    dosage: string,
    quantity: int,
    price: int,
    refill: RefillInfo)

  /** The record `Medication empty = {0};` builds: every number zero and every
      string empty. */
  const ZeroMedication: Medication :=
    Medication(0, "", "", 0, 0, RefillInfo(0, ""))

  datatype Option<+T> = None | Some(value: T)

  /** Status of a call on one of the bounded containers. */
  datatype Status = Done | Full | Empty

  /** The elements of `s` last first. */
  function Reversed<T>(s: seq<T>): (r: seq<T>)
    ensures |r| == |s|
    ensures forall i :: 0 <= i < |s| ==> r[i] == s[|s| - 1 - i]
  {
    if |s| == 0 then [] else Reversed(s[1..]) + [s[0]]
  }
}
