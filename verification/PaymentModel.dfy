/** Payment and charge rows, and the sums the reports are about. */
module PaymentModel {
  import opened Common

  // The status column is text; the code treats an empty one as not set.
  datatype PaymentStatus = Pending | Completed | FailedStatus | Void | Unset

  datatype Payment = Payment(
    id: Id, org: Id, lease: Id, amount: int, currency: string, receivedAt: Instant, paidBy: string,
    status: PaymentStatus, externalRef: string, provider: string, trackingId: string, providerStatus: string)

  datatype Charge = Charge(id: Id, org: Id, lease: Id, amount: int, dueAt: Instant, status: string)

  // The payments table in primary-key order; a new row may take any place in it.
  function Inserted(payments: seq<Payment>, place: nat, p: Payment): seq<Payment>
    requires place <= |payments|
  {
    payments[..place] + [p] + payments[place..]
  }
}
