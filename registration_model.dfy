/** The Registration collection: its documents, the two status enums with
    their defaults, and validation. */
module RegistrationModel {
  import opened Common

  /** The `status` enum. */
  datatype Status = Pending | Confirmed | Cancelled

  /** The `paymentStatus` enum (stored, never consulted). */
  datatype PaymentStatus = PaymentPending | PaymentCompleted | PaymentFailed

  const DefaultStatus: Status := Pending
  const DefaultPaymentStatus: PaymentStatus := PaymentPending

  function StatusName(s: Status): string {
    match s
    case Pending => "pending"
    case Confirmed => "confirmed"
    case Cancelled => "cancelled"
  }

  /** Enum validation of a status string: exactly the three names pass, each
      to the value it names. */
  function ParseStatus(s: string): (r: Option<Status>)
    ensures r.Some? <==> exists st :: StatusName(st) == s
    ensures r.Some? ==> StatusName(r.value) == s
  {
    if s == "pending" then assert StatusName(Pending) == s; Some(Pending)
    else if s == "confirmed" then assert StatusName(Confirmed) == s; Some(Confirmed)
    else if s == "cancelled" then assert StatusName(Cancelled) == s; Some(Cancelled)
    else
      assert forall st :: StatusName(st) != s;
      None
  }

  function PaymentStatusName(s: PaymentStatus): string {
    match s
    case PaymentPending => "pending"
    case PaymentCompleted => "completed"
    case PaymentFailed => "failed"
  }

  /** Enum validation of a payment status string. */
  function ParsePaymentStatus(s: string): (r: Option<PaymentStatus>)
    ensures r.Some? <==> exists st :: PaymentStatusName(st) == s
    ensures r.Some? ==> PaymentStatusName(r.value) == s
  {
    if s == "pending" then assert PaymentStatusName(PaymentPending) == s; Some(PaymentPending)
    else if s == "completed" then assert PaymentStatusName(PaymentCompleted) == s; Some(PaymentCompleted)
    else if s == "failed" then assert PaymentStatusName(PaymentFailed) == s; Some(PaymentFailed)
    else
      assert forall st :: PaymentStatusName(st) != s;
      None
  }

  /** A stored Registration document. */
  datatype Registration = Registration(
    marathonId: Id,
    userEmail: string,
    userName: string,
    firstName: string,
    lastName: string,
    contactNo: string,
    additionalInfo: Option<string>,
    status: Status,
    registrationDate: int,
    paymentStatus: PaymentStatus,
    transactionId: Option<string>)

  /** Schema validation: the five required string paths are present. The
      sixth required path, marathonId, is an `Id` and present by its type;
      the enums are valid by construction of the type. */
  predicate ValidRegistration(r: Registration) {
    && Present(r.userEmail)
    && Present(r.userName)
    && Present(r.firstName)
    && Present(r.lastName)
    && Present(r.contactNo)
  }

  /** An active registration is one that is not cancelled. */
  predicate Active(r: Registration) {
    r.status != Cancelled
  }
}
