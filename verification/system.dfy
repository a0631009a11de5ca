/** The three process-wide globals of the system gathered into one explicit
    session value, with the operations that touch more than one of them. */
module MedicationSystem {
  import opened Records
  import Registry
  import History
  import Alerts

  /** `medicationList`, `medicationHistory` and `refillAlerts`. */
  datatype Session = Session(
    medications: Registry.MedicationList,
    history: History.MedicationStack,
    alerts: Alerts.RefillQueue)

  /** Both bounded containers satisfy their index invariants. */
  predicate Valid(s: Session) {
    History.Valid(s.history) && Alerts.Valid(s.alerts)
  }

  /** `initializeSystem`: an empty list, `top == -1`, and a queue with
      `front == 0`, `rear == -1`, `count == 0`; the index invariants hold and
      all three containers are empty. */
  function InitializeSystem(): (s: Session)
    ensures Valid(s)
    ensures s.medications == []
    ensures History.Entries(s.history) == [] && History.IsStackEmpty(s.history)
    ensures Alerts.Pending(s.alerts) == [] && Alerts.IsQueueEmpty(s.alerts)
  {
    Session([], History.EmptyHistory(), Alerts.EmptyAlerts())
  }

  /** What the "add refill alert" action reports: the id is unknown, or the
      record found was handed to the queue, with the queue's own status. */
  datatype AlertOutcome = UnknownId | Handed(med: Medication, status: Status)

  /** The "add refill alert" action of `main`: the first registry node
      carrying `id` is looked up and a copy of its record is enqueued. The
      registry and the history are left alone. */
  function AddRefillAlert(s: Session, id: int): (r: (Session, AlertOutcome))
    requires Valid(s)
    ensures Valid(r.0)
    ensures r.0.medications == s.medications && r.0.history == s.history
    ensures !Registry.HasId(s.medications, id) ==> r == (s, UnknownId)
    ensures Registry.HasId(s.medications, id) ==>
      var med := s.medications[Registry.FindFirst(s.medications, id).value];
      && r.1.Handed? && r.1.med == med
      && (|Alerts.Pending(s.alerts)| < Alerts.QueueSize ==>
            r.1.status == Done && Alerts.Pending(r.0.alerts) == Alerts.Pending(s.alerts) + [med])
      && (|Alerts.Pending(s.alerts)| == Alerts.QueueSize ==> r.1.status == Full && r.0 == s)
  {
    match Registry.LookupMedication(s.medications, id)
    case None => (s, UnknownId)
    case Some(med) =>
      var (alerts, status) := Alerts.EnqueueMedication(s.alerts, med);
      (s.(alerts := alerts), Handed(med, status))
  }
}
