/** The lease lifecycle as a state machine: what each request does to the rows of the
    leases, renewal offers, closeouts and units tables, write by write, including what is
    left behind when a later write of the same request fails. */
module LeaseSteps {
  import opened Common
  import opened Calendar
  import opened LeaseRanges
  import opened LeaseModel
  import opened Text

  datatype UnitStatus = Vacant | Occupied | Offline | Maintenance
  datatype Unit = Unit(org: Id, status: UnitStatus)

  datatype OfferStatus = Offered | Accepted | Declined
  datatype Offer = Offer(org: Id, lease: Id, range: Range, rent: int, currency: string, status: OfferStatus)

  datatype Closeout = CloseoutRow(org: Id, moveOut: Instant, settlement: int, currency: string)

  // Closeouts are keyed by lease, as the unique index on lease_id makes them.
  datatype Tables = Tables(
    leases: map<Id, Lease>, offers: map<Id, Offer>, closeouts: map<Id, Closeout>,
    units: map<Id, Unit>, tenants: map<Id, Id>)

  datatype Error = Forbidden | NotFound | Validation | LeaseOverlap | Internal
  datatype Reply = Done | Failed(error: Error)

  // Any database call of a request may fail; a failed call writes nothing.
  datatype Call = Load | LeaseUpdate | LeaseInsert | OfferWrite | CloseoutWrite | Sync

  // One request's surroundings: its clock reading, its acting user with the verdicts of the
  // role gate and of the manager's building gate, the tenant row linked to that user, and
  // the calls that fail.
  datatype Context = Context(now: Instant, user: Id, roleOk: bool, unitOk: bool, tenant: Id, faults: set<Call>)

  datatype CreateRequest = CreateRequest(
    tenant: Id, unit: Id, range: Range, rent: int, deposit: Option<int>, currency: string,
    status: string, isPrimary: Option<bool>, dueDay: Option<int>, amountOverride: Option<int>, channel: string)

  datatype OfferRequest = OfferRequest(range: Range, rent: int, currency: string)

  datatype CloseoutRequest = CloseoutRequest(moveOut: Instant, settlement: int, currency: string)

  // The database chooses the id of an inserted row; inserting an id that exists fails.
  datatype Step =
    | Create(org: Id, create: CreateRequest, newId: Id)
    | Patch(org: Id, id: Id, patch: PatchRequest)
    | End(org: Id, id: Id, endDate: Option<Instant>)
    | Approve(org: Id, id: Id)
    | Reject(org: Id, id: Id)
    | CreateRenewalOffer(org: Id, id: Id, offerRequest: OfferRequest, newId: Id)
    | AcceptRenewalOffer(org: Id, id: Id, offer: Id, newId: Id)
    | RejectRenewalOffer(org: Id, id: Id, offer: Id)
    | CloseoutLease(org: Id, id: Id, closeout: CloseoutRequest)

  // ---- queries ----

  function FindLease(t: Tables, org: Id, id: Id): Option<Lease> {
    if id in t.leases && t.leases[id].org == org then Some(t.leases[id]) else None
  }

  function FindOffer(t: Tables, org: Id, lease: Id, id: Id): Option<Offer> {
    if id in t.offers && t.offers[id].org == org && t.offers[id].lease == lease then Some(t.offers[id]) else None
  }

  predicate HasActive(leases: map<Id, Lease>, org: Id, unit: Id) {
    exists id :: id in leases && leases[id].org == org && leases[id].unit == unit && leases[id].status == Active
  }

  // assertNoPrimaryActiveOverlap: some other live lease of the unit overlaps the candidate.
  predicate OverlapFound(t: Tables, org: Id, exclude: Option<Id>, candidate: Lease) {
    IsLive(candidate) &&
    exists id :: id in t.leases && Some(id) != exclude && IsLive(t.leases[id])
      && t.leases[id].org == org && t.leases[id].unit == candidate.unit
      && RangesOverlap(candidate.range, t.leases[id].range)
  }

  // ---- the store: CHECK (end > start) and EXCLUDE (unit, range) WHERE live, when enforced ----

  // Row id = l would meet the range of another live lease on its unit.
  predicate Clashes(leases: map<Id, Lease>, id: Id, l: Lease) {
    IsLive(l) &&
    exists o :: o in leases && o != id && IsLive(leases[o]) && leases[o].unit == l.unit
      && Meets(l.range, leases[o].range)
  }

  predicate Storable(enforced: bool, leases: map<Id, Lease>, id: Id, l: Lease) {
    enforced ==> WellOrdered(l.range) && !Clashes(leases, id, l)
  }

  // UPDATE leases ... WHERE id: the row afterwards, stamped with the request's time.
  function Stamped(l: Lease, now: Instant): Lease {
    l.(updatedAt := now)
  }

  predicate UpdateOk(enforced: bool, t: Tables, ctx: Context, id: Id, l: Lease) {
    LeaseUpdate !in ctx.faults && Storable(enforced, t.leases, id, l)
  }

  predicate InsertOk(enforced: bool, t: Tables, ctx: Context, id: Id, l: Lease) {
    LeaseInsert !in ctx.faults && id !in t.leases && Storable(enforced, t.leases, id, l)
  }

  function WithLease(t: Tables, ctx: Context, id: Id, l: Lease): Tables {
    t.(leases := t.leases[id := Stamped(l, ctx.now)])
  }

  // syncUnitOccupancy: rederive the unit's status column from the leases.
  function WithOccupancy(t: Tables, org: Id, unit: Id): Tables {
    if unit in t.units && t.units[unit].org == org then
      t.(units := t.units[unit := t.units[unit].(status := if HasActive(t.leases, org, unit) then Occupied else Vacant)])
    else t
  }

  function Settle(t: Tables, ctx: Context, org: Id, unit: Id): (Tables, Reply) {
    if Sync in ctx.faults then (t, Failed(Internal)) else (WithOccupancy(t, org, unit), Done)
  }

  // Update one lease row, then rederive its unit.
  function Commit(enforced: bool, t: Tables, ctx: Context, id: Id, l: Lease): (Tables, Reply) {
    if UpdateOk(enforced, t, ctx, id, l) then Settle(WithLease(t, ctx, id, l), ctx, l.org, l.unit)
    else (t, Failed(Internal))
  }

  function By(user: Id): Option<Id> {
    if user == "" then None else Some(user)
  }

  function SignedBy(l: Lease, user: Id): Lease {
    if user == "" then l else l.(updatedBy := Some(user))
  }

  // What the ORM makes of a row it inserts: a column that declares a default and holds its zero
  // value gets the default, so a lease built as not primary is stored as primary.
  function AsInserted(l: Lease): Lease {
    l.(isPrimary := true, currency := OrUsd(l.currency))
  }

  function OrUsd(currency: string): string {
    if currency == "" then "USD" else currency
  }

  // ---- the requests ----

  // The lease a Create builds and checks.
  function NewLease(org: Id, req: CreateRequest, user: Id): Lease {
    Lease(org, req.unit, req.tenant, req.range, req.rent, req.deposit, OrUsd(Upper(TrimSpace(req.currency))),
          req.dueDay, req.amountOverride, TrimSpace(Lower(req.channel)),
          GetOr(ParseLeaseStatus(req.status), PendingApproval), GetOr(req.isPrimary, true), 0, By(user))
  }

  function CreateStep(enforced: bool, t: Tables, ctx: Context, org: Id, req: CreateRequest, newId: Id): (Tables, Reply) {
    if !ctx.roleOk then (t, Failed(Forbidden))
    else if !WellOrdered(req.range) then (t, Failed(Validation))
    else if Load in ctx.faults then (t, Failed(Internal))
    else if req.tenant !in t.tenants || t.tenants[req.tenant] != org then (t, Failed(NotFound))
    else if req.unit !in t.units || t.units[req.unit].org != org then (t, Failed(NotFound))
    else if !ctx.unitOk then (t, Failed(Forbidden))
    else
      var l := NewLease(org, req, ctx.user);
      if OverlapFound(t, org, None, l) then (t, Failed(LeaseOverlap))
      else if !InsertOk(enforced, t, ctx, newId, AsInserted(l)) then (t, Failed(Internal))
      else Settle(WithLease(t, ctx, newId, AsInserted(l)), ctx, org, l.unit)
  }

  function PatchStep(enforced: bool, t: Tables, ctx: Context, org: Id, id: Id, req: PatchRequest): (Tables, Reply) {
    if !ctx.roleOk then (t, Failed(Forbidden))
    else if Load in ctx.faults then (t, Failed(Internal))
    else match FindLease(t, org, id)
      case None => (t, Failed(NotFound))
      case Some(cur) =>
        if !ctx.unitOk then (t, Failed(Forbidden))
        else if !StatusAccepted(req) then (t, Failed(Validation))
        else
          var next := PatchedRow(cur, req, ctx.user);
          if !WellOrdered(next.range) then (t, Failed(Validation))
          else if OverlapFound(t, org, Some(id), next) then (t, Failed(LeaseOverlap))
          else if PatchIsEmpty(req) && ctx.user == "" then (t, Done)
          else Commit(enforced, t, ctx, id, next)
  }

  function EndStep(enforced: bool, t: Tables, ctx: Context, org: Id, id: Id, endDate: Option<Instant>): (Tables, Reply) {
    if !ctx.roleOk then (t, Failed(Forbidden))
    else if Load in ctx.faults then (t, Failed(Internal))
    else match FindLease(t, org, id)
      case None => (t, Failed(NotFound))
      case Some(l) =>
        var endAt := GetOr(endDate, ctx.now);
        if !ctx.unitOk then (t, Failed(Forbidden))
        else if endAt <= l.range.start then (t, Failed(Validation))
        else Commit(enforced, t, ctx, id,
                    SignedBy(l.(status := LeaseStatus.Ended, range := Range(l.range.start, Some(endAt))), ctx.user))
  }

  // Approve and Reject look at who asks, never at the lease's current status or range.
  function DecideStep(enforced: bool, t: Tables, ctx: Context, org: Id, id: Id, decision: LeaseStatus): (Tables, Reply) {
    if !ctx.roleOk then (t, Failed(Forbidden))
    else if Load in ctx.faults then (t, Failed(Internal))
    else match FindLease(t, org, id)
      case None => (t, Failed(NotFound))
      case Some(l) =>
        if ctx.tenant != l.tenant then (t, Failed(Forbidden))
        else Commit(enforced, t, ctx, id, l.(status := decision))
  }

  // The currency of an offer or closeout: the one given, else the lease's, else the column's default.
  function CurrencyFor(given: string, l: Lease): string {
    var currency := Upper(TrimSpace(given));
    OrUsd(if currency == "" then l.currency else currency)
  }

  function CreateOfferStep(t: Tables, ctx: Context, org: Id, id: Id, req: OfferRequest, newId: Id): (Tables, Reply) {
    if !ctx.roleOk then (t, Failed(Forbidden))
    else if Load in ctx.faults then (t, Failed(Internal))
    else match FindLease(t, org, id)
      case None => (t, Failed(NotFound))
      case Some(l) =>
        if !ctx.unitOk then (t, Failed(Forbidden))
        else if OfferWrite in ctx.faults || newId in t.offers then (t, Failed(Internal))
        else (t.(offers := t.offers[newId :=
                Offer(org, id, req.range, req.rent, CurrencyFor(req.currency, l), Offered)]), Done)
  }

  // What acceptance makes of the old lease: ended, and cut one second short of a later start.
  function RetiredLease(l: Lease, offer: Offer, user: Id): Lease {
    l.(status := LeaseStatus.Ended, updatedBy := Some(user),
       range := if l.range.start < offer.range.start
                then Range(l.range.start, Some(offer.range.start - SECOND)) else l.range)
  }

  function RenewedLease(l: Lease, offer: Offer, user: Id): Lease {
    AsInserted(Lease(offer.org, l.unit, l.tenant, offer.range, offer.rent, None, offer.currency,
                     None, None, "", Active, true, 0, By(user)))
  }

  // The old lease's update is attempted and its failure ignored.
  function AfterRetiring(enforced: bool, t: Tables, ctx: Context, id: Id, l: Lease, offer: Offer): Tables {
    var retired := RetiredLease(l, offer, ctx.user);
    if UpdateOk(enforced, t, ctx, id, retired) then WithLease(t, ctx, id, retired) else t
  }

  function WithOfferStatus(t: Tables, id: Id, status: OfferStatus): Tables
    requires id in t.offers
  {
    t.(offers := t.offers[id := t.offers[id].(status := status)])
  }

  // The gates of a tenant's decision on an offer, up to the load of the offer.
  function TenantOffer(t: Tables, ctx: Context, org: Id, id: Id, offerId: Id): (r: Result<Offer, Error>)
    ensures r.Ok? ==> FindLease(t, org, id).Some? && FindOffer(t, org, id, offerId) == Some(r.value)
  {
    if !ctx.roleOk then Err(Forbidden)
    else if Load in ctx.faults then Err(Internal)
    else match FindLease(t, org, id)
      case None => Err(NotFound)
      case Some(l) =>
        if ctx.tenant != l.tenant then Err(Forbidden)
        else match FindOffer(t, org, id, offerId)
          case None => Err(NotFound)
          case Some(offer) => Ok(offer)
  }

  function AcceptStep(enforced: bool, t: Tables, ctx: Context, org: Id, id: Id, offerId: Id, newId: Id): (Tables, Reply) {
    match TenantOffer(t, ctx, org, id, offerId)
    case Err(error) => (t, Failed(error))
    case Ok(offer) =>
      if offer.status != Offered then (t, Failed(Validation))
      else if OfferWrite in ctx.faults then (t, Failed(Internal))
      else
        var l := FindLease(t, org, id).value;
        var t2 := AfterRetiring(enforced, WithOfferStatus(t, offerId, Accepted), ctx, id, l, offer);
        var renewed := RenewedLease(l, offer, ctx.user);
        if !InsertOk(enforced, t2, ctx, newId, renewed) then (t2, Failed(Internal))
        else Settle(WithLease(t2, ctx, newId, renewed), ctx, org, l.unit)
  }

  function DeclineStep(t: Tables, ctx: Context, org: Id, id: Id, offerId: Id): (Tables, Reply) {
    match TenantOffer(t, ctx, org, id, offerId)
    case Err(error) => (t, Failed(error))
    case Ok(_) =>
      if OfferWrite in ctx.faults then (t, Failed(Internal))
      else (WithOfferStatus(t, offerId, Declined), Done)
  }

  function WithCloseout(t: Tables, org: Id, id: Id, l: Lease, req: CloseoutRequest): Tables {
    t.(closeouts := t.closeouts[id := CloseoutRow(org, req.moveOut, req.settlement, CurrencyFor(req.currency, l))])
  }

  // The closeout row is written first, and a lease has at most one.
  function CloseoutStep(enforced: bool, t: Tables, ctx: Context, org: Id, id: Id, req: CloseoutRequest): (Tables, Reply) {
    if !ctx.roleOk then (t, Failed(Forbidden))
    else if Load in ctx.faults then (t, Failed(Internal))
    else match FindLease(t, org, id)
      case None => (t, Failed(NotFound))
      case Some(l) =>
        if !ctx.unitOk then (t, Failed(Forbidden))
        else if CloseoutWrite in ctx.faults || id in t.closeouts then (t, Failed(Internal))
        else
          Commit(enforced, WithCloseout(t, org, id, l, req), ctx, id,
                 l.(status := LeaseStatus.Ended, updatedBy := Some(ctx.user), range := Range(l.range.start, Some(req.moveOut))))
  }

  function Next(enforced: bool, t: Tables, ctx: Context, step: Step): (Tables, Reply) {
    match step
    case Create(org, req, newId) => CreateStep(enforced, t, ctx, org, req, newId)
    case Patch(org, id, req) => PatchStep(enforced, t, ctx, org, id, req)
    case End(org, id, endDate) => EndStep(enforced, t, ctx, org, id, endDate)
    case Approve(org, id) => DecideStep(enforced, t, ctx, org, id, Active)
    case Reject(org, id) => DecideStep(enforced, t, ctx, org, id, Rejected)
    case CreateRenewalOffer(org, id, req, newId) => CreateOfferStep(t, ctx, org, id, req, newId)
    case AcceptRenewalOffer(org, id, offer, newId) => AcceptStep(enforced, t, ctx, org, id, offer, newId)
    case RejectRenewalOffer(org, id, offer) => DeclineStep(t, ctx, org, id, offer)
    case CloseoutLease(org, id, req) => CloseoutStep(enforced, t, ctx, org, id, req)
  }

  datatype Event = Event(ctx: Context, step: Step)

  function Run(enforced: bool, t: Tables, events: seq<Event>): Tables
    decreases |events|
  {
    hide Next;
    if events == [] then t else Run(enforced, Next(enforced, t, events[0].ctx, events[0].step).0, events[1..])
  }

  // Every request of the run returned success.
  predicate AllDone(enforced: bool, t: Tables, events: seq<Event>)
    decreases |events|
  {
    hide Next;
    events != [] ==>
      var (next, reply) := Next(enforced, t, events[0].ctx, events[0].step);
      reply == Done && AllDone(enforced, next, events[1..])
  }
}
