/** The payment service as an object: it inserts payments and updates them in place. */
module PaymentService {
  import opened Common
  import opened LeaseModel
  import opened PaymentModel
  import opened ProviderEvents
  import Calendar
  import Ledger
  import Text

  datatype PaymentRequest = PaymentRequest(
    lease: Id, amount: int, currency: string, paidBy: string, externalRef: string, receivedAt: Option<Instant>)

  // A SubmitOrder reply of the gateway; None is no gateway, or a failed call.
  datatype GatewayReply = GatewayReply(merchantRef: string, trackingId: string)

  datatype Error = LeaseNotFound | Internal

  function CurrencyOf(req: PaymentRequest): string {
    var currency := Text.Upper(Text.TrimSpace(req.currency));
    if currency == "" then "USD" else currency
  }

  function MethodOf(req: PaymentRequest, default: string): string {
    var paidBy := Text.TrimSpace(Text.Lower(req.paidBy));
    if paidBy == "" then default else paidBy
  }

  // Go's zero time, which a request may carry and which counts as no time given.
  const ZERO_TIME: Instant := Calendar.MonthStart(12)

  // Which events reach a payment that was inserted at a place.
  lemma InsertedIsReached(before: seq<Payment>, place: nat, stored: Payment)
    requires place <= |before|
    ensures forall ev: ProviderEvent ::
              Target(Inserted(before, place, stored), ev) == Some(place) <==>
                && Matches(stored, Text.TrimSpace(ev.merchantRef), Text.TrimSpace(ev.trackingId))
                && forall k :: 0 <= k < place ==> !Matches(before[k], Text.TrimSpace(ev.merchantRef), Text.TrimSpace(ev.trackingId))
  {
    hide Text.TrimSpace, Target, Matches;
    var after := Inserted(before, place, stored);
    assert after[place] == stored && forall k :: 0 <= k < place ==> after[k] == before[k];
    forall ev: ProviderEvent
      ensures Target(after, ev) == Some(place) <==>
                && Matches(stored, Text.TrimSpace(ev.merchantRef), Text.TrimSpace(ev.trackingId))
                && forall k :: 0 <= k < place ==> !Matches(before[k], Text.TrimSpace(ev.merchantRef), Text.TrimSpace(ev.trackingId))
    {
      TargetExact(after, ev, place);
    }
  }

  lemma RequestColumns(req: PaymentRequest, default: string)
    ensures CurrencyOf(req) == if Text.TrimSpace(req.currency) == "" then "USD" else Text.Upper(Text.TrimSpace(req.currency))
    ensures MethodOf(req, default) ==
            if Text.TrimSpace(Text.Lower(req.paidBy)) == "" then default else Text.TrimSpace(Text.Lower(req.paidBy))
  {
    hide Text.TrimSpace, Text.Lower;
    assert Text.TrimSpace(req.currency) != "" ==> Text.Upper(Text.TrimSpace(req.currency)) != "";
  }

  // The request asks about a stored lease of the organization, and the new row's id is new.
  predicate Accepts(leases: map<Id, Lease>, payments: seq<Payment>, org: Id, req: PaymentRequest, id: Id) {
    && req.lease in leases && leases[req.lease].org == org
    && forall p :: p in payments ==> p.id != id
  }

  class Service {
    var payments: seq<Payment>

    constructor (payments: seq<Payment>)
      ensures this.payments == payments
    {
      this.payments := payments;
    }

    // Records money already received: completed at once. The database may fail the insert.
    method RecordManual(leases: map<Id, Lease>, org: Id, req: PaymentRequest, id: Id, place: nat, now: Instant, stamp: string,
                        inserts: bool)
      returns (r: Result<Payment, Error>)
      requires place <= |payments|
      modifies this
      ensures r.Ok? <==> Accepts(leases, old(payments), org, req, id) && inserts
      ensures r.Err? ==> payments == old(payments)
      ensures r.Ok? ==>
                && payments == Inserted(old(payments), place, r.value)
                && r.value.id == id && r.value.org == org && r.value.lease == req.lease && r.value.amount == req.amount
                && r.value.status == Completed
                && r.value.currency == (if Text.TrimSpace(req.currency) == "" then "USD" else Text.Upper(Text.TrimSpace(req.currency)))
                && r.value.receivedAt == (if req.receivedAt.None? || req.receivedAt.value == Calendar.MonthStart(12) then now
                                          else req.receivedAt.value)
                && r.value.paidBy == (if Text.TrimSpace(Text.Lower(req.paidBy)) == "" then "cash" else Text.TrimSpace(Text.Lower(req.paidBy)))
                && r.value.externalRef == (if Text.TrimSpace(req.externalRef) == "" then "manual_" + stamp
                                           else Text.TrimSpace(req.externalRef))
                && r.value.provider == "manual" && r.value.trackingId == "" && r.value.providerStatus == "recorded"
                && (forall o: Id, tenant: Id, charges ::
                      Ledger.Owed(leases, charges, payments, o, tenant) ==
                      Ledger.Owed(leases, charges, old(payments), o, tenant)
                      - if o == org && tenant == leases[req.lease].tenant then req.amount else 0)
    {
      hide Text.TrimSpace, Text.Lower, CurrencyOf, MethodOf, Calendar.MonthStart;
      RequestColumns(req, "cash");
      if req.lease !in leases || leases[req.lease].org != org { return Err(LeaseNotFound); }
      if !inserts || exists p :: p in payments && p.id == id { return Err(Internal); }
      var receivedAt := now;
      if req.receivedAt.Some? && req.receivedAt.value != ZERO_TIME { receivedAt := req.receivedAt.value; }
      var externalRef := Text.TrimSpace(req.externalRef);
      if externalRef == "" { externalRef := "manual_" + stamp; }
      var p := Payment(id, org, req.lease, req.amount, CurrencyOf(req), receivedAt, MethodOf(req, "cash"),
                       Completed, externalRef, "manual", "", "recorded");
      ghost var before := payments;
      payments := Inserted(payments, place, p);
      forall o: Id, tenant: Id, charges
        ensures Ledger.Owed(leases, charges, payments, o, tenant) ==
                Ledger.Owed(leases, charges, before, o, tenant)
                - if o == org && tenant == leases[req.lease].tenant then req.amount else 0
      {
        Ledger.PaymentLowersOneBalance(leases, charges, before, place, p, o, tenant);
      }
      return Ok(p);
    }

    // Creates a pending payment and passes it to the gateway, whose reply replaces its references.
    // The reply to the caller carries them even when storing them fails. A later event reaches the
    // stored payment exactly when it quotes a stored reference and no earlier payment matches it.
    method Initiate(leases: map<Id, Lease>, org: Id, req: PaymentRequest, id: Id, place: nat, now: Instant, stamp: string,
                    inserts: bool, reply: Option<GatewayReply>, referencesSaved: bool)
      returns (r: Result<Payment, Error>)
      requires place <= |payments|
      modifies this
      ensures r.Ok? <==> Accepts(leases, old(payments), org, req, id) && inserts
      ensures r.Err? ==> payments == old(payments)
      ensures r.Ok? ==>
                && |payments| == |old(payments)| + 1
                && var stored := payments[place];
                && payments == Inserted(old(payments), place, stored)
                && r.value.id == id && r.value.org == org && r.value.lease == req.lease && r.value.amount == req.amount
                && r.value.status == Pending && r.value.receivedAt == now && r.value.provider == "pesapal"
                && r.value.currency == (if Text.TrimSpace(req.currency) == "" then "USD" else Text.Upper(Text.TrimSpace(req.currency)))
                && r.value.paidBy == (if Text.TrimSpace(Text.Lower(req.paidBy)) == "" then "other" else Text.TrimSpace(Text.Lower(req.paidBy)))
                && r.value.providerStatus == (if reply.Some? then "submitted" else "pending")
                && r.value.externalRef == (if reply.Some? && Text.TrimSpace(reply.value.merchantRef) != ""
                                           then Text.TrimSpace(reply.value.merchantRef) else "placeholder_" + stamp)
                && r.value.trackingId == (if reply.Some? then Text.TrimSpace(reply.value.trackingId) else "")
                && stored == (if reply.None? || referencesSaved then r.value
                              else r.value.(externalRef := "placeholder_" + stamp, trackingId := "", providerStatus := "pending"))
                && (forall ev: ProviderEvent ::
                      Target(payments, ev) == Some(place) <==>
                        && Matches(stored, Text.TrimSpace(ev.merchantRef), Text.TrimSpace(ev.trackingId))
                        && forall k :: 0 <= k < place ==>
                             !Matches(old(payments)[k], Text.TrimSpace(ev.merchantRef), Text.TrimSpace(ev.trackingId)))
    {
      hide Text.TrimSpace, Text.Lower, CurrencyOf, MethodOf, Target, Matches;
      RequestColumns(req, "other");
      if req.lease !in leases || leases[req.lease].org != org { return Err(LeaseNotFound); }
      if !inserts || exists p :: p in payments && p.id == id { return Err(Internal); }
      var p := Payment(id, org, req.lease, req.amount, CurrencyOf(req), now, MethodOf(req, "other"),
                       Pending, "placeholder_" + stamp, "pesapal", "", "pending");
      ghost var before := payments;
      payments := Inserted(payments, place, p);
      if reply.Some? {
        if Text.TrimSpace(reply.value.merchantRef) != "" { p := p.(externalRef := Text.TrimSpace(reply.value.merchantRef)); }
        if Text.TrimSpace(reply.value.trackingId) != "" { p := p.(trackingId := Text.TrimSpace(reply.value.trackingId)); }
        p := p.(providerStatus := "submitted");
        assert payments[place].id == p.id;
        if referencesSaved { payments := payments[place := p]; }
      }
      assert payments == Inserted(before, place, payments[place]);
      InsertedIsReached(before, place, payments[place]);
      return Ok(p);
    }

    // A push notification of the provider; a failing update is reported.
    method HandlePesapalIPN(merchantRef: string, trackingId: string, kind: string, statusSaved: bool) returns (ok: bool)
      modifies this
      ensures payments == Apply(old(payments), Notification(merchantRef, trackingId, kind, statusSaved))
      ensures ok <==> Target(old(payments), Notification(merchantRef, trackingId, kind, statusSaved)).None? || statusSaved
    {
      hide Text.TrimSpace, Text.Lower, Find;
      var found := Find(payments, Text.TrimSpace(merchantRef), Text.TrimSpace(trackingId), 0);
      if found.None? {
        return true;
      }
      var p := payments[found.value];
      var next := MapProviderNotification(kind, p.status);
      if !statusSaved {
        return false;
      }
      payments := payments[found.value := p.(status := next, providerStatus := Text.TrimSpace(kind))];
      return true;
    }

    // The provider's answer to a status question: first the status, then the references. A failure
    // of either update is ignored.
    method GetTransactionStatus(trackingId: string, merchantRef: string, code: int, description: string,
                                statusSaved: bool, referencesSaved: bool)
      modifies this
      ensures payments == Apply(old(payments),
                                StatusReply(merchantRef, trackingId, code, description, statusSaved, referencesSaved))
    {
      hide Text.TrimSpace, Text.Lower, Find;
      var found := Find(payments, Text.TrimSpace(merchantRef), Text.TrimSpace(trackingId), 0);
      if found.None? {
        return;
      }
      var i := found.value;
      var next := MapProviderStatusCode(code, description, payments[i].status);
      if statusSaved {
        payments := payments[i := payments[i].(status := next, providerStatus := Text.TrimSpace(description))];
      }
      if referencesSaved {
        payments := payments[i := payments[i].(
          provider := "pesapal", externalRef := Text.TrimSpace(merchantRef), trackingId := Text.TrimSpace(trackingId),
          providerStatus := Text.TrimSpace(description))];
      }
    }
  }
}
