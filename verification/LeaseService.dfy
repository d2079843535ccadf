/** The lease service and its repository as objects: rows are updated in place, one database
    call after another, and each request is proved to be the step of the state machine. */
module LeaseService {
  import opened Common
  import opened Calendar
  import opened LeaseRanges
  import opened LeaseModel
  import opened LeaseSteps
  import Text

  class Repository {
    const enforced: bool
    var leases: map<Id, Lease>
    var offers: map<Id, Offer>
    var closeouts: map<Id, Closeout>
    var units: map<Id, Unit>
    var tenants: map<Id, Id>

    constructor (enforced: bool, tables: Tables)
      ensures this.enforced == enforced && Contents() == tables
    {
      this.enforced := enforced;
      leases, offers, closeouts, units, tenants :=
        tables.leases, tables.offers, tables.closeouts, tables.units, tables.tenants;
    }

    function Contents(): Tables
      reads this
    {
      Tables(leases, offers, closeouts, units, tenants)
    }

    method GetByIDInOrg(ctx: Context, org: Id, id: Id) returns (r: Result<Lease, Error>)
      ensures r == if Load in ctx.faults then Err(Internal)
                   else match FindLease(Contents(), org, id) case None => Err(NotFound) case Some(l) => Ok(l)
    {
      if Load in ctx.faults { return Err(Internal); }
      if id in leases && leases[id].org == org { return Ok(leases[id]); }
      return Err(NotFound);
    }

    // Live leases of a unit, leaving one id out.
    method ActivePrimaryLeasesForUnit(org: Id, unit: Id, exclude: Option<Id>) returns (rows: seq<Lease>)
      ensures forall l :: l in rows <==>
                exists id :: id in leases && Some(id) != exclude && leases[id] == l
                  && IsLive(l) && l.org == org && l.unit == unit
    {
      rows := [];
      var rest := leases.Keys;
      while rest != {}
        invariant rest <= leases.Keys
        invariant forall l :: l in rows <==>
                    exists id :: id in leases && id !in rest && Some(id) != exclude && leases[id] == l
                      && IsLive(l) && l.org == org && l.unit == unit
        decreases |rest|
      {
        var id :| id in rest;
        var l := leases[id];
        if Some(id) != exclude && IsLive(l) && l.org == org && l.unit == unit {
          rows := rows + [l];
        }
        rest := rest - {id};
      }
    }

    method CountActiveLeasesOnUnit(org: Id, unit: Id) returns (n: nat)
      ensures n == |set id | id in leases && leases[id].org == org && leases[id].unit == unit && leases[id].status == Active|
      ensures n > 0 <==> HasActive(leases, org, unit)
    {
      var ids := set id | id in leases && leases[id].org == org && leases[id].unit == unit && leases[id].status == Active;
      if HasActive(leases, org, unit) {
        var id :| id in leases && leases[id].org == org && leases[id].unit == unit && leases[id].status == Active;
        assert id in ids;
      }
      n := |ids|;
    }

    // UPDATE leases SET ... WHERE organization_id = ? AND id = ?; matching no row is a success.
    method Update(ctx: Context, org: Id, id: Id, u: Updates) returns (ok: bool)
      modifies this
      ensures match old(FindLease(Contents(), org, id))
              case None => ok == (LeaseUpdate !in ctx.faults) && Contents() == old(Contents())
              case Some(l) =>
                && ok == UpdateOk(enforced, old(Contents()), ctx, id, ApplyUpdates(l, u))
                && Contents() == if ok then WithLease(old(Contents()), ctx, id, ApplyUpdates(l, u)) else old(Contents())
    {
      if id !in leases || leases[id].org != org {
        return LeaseUpdate !in ctx.faults;
      }
      var row := ApplyUpdates(leases[id], u);
      ok := LeaseUpdate !in ctx.faults && Storable(enforced, leases, id, row);
      if ok {
        leases := leases[id := row.(updatedAt := ctx.now)];
      }
    }

    // The ORM puts column defaults in place of zero values before it inserts.
    method Create(ctx: Context, id: Id, l: Lease) returns (ok: bool)
      modifies this
      ensures ok == InsertOk(enforced, old(Contents()), ctx, id, AsInserted(l))
      ensures Contents() == if ok then WithLease(old(Contents()), ctx, id, AsInserted(l)) else old(Contents())
    {
      var row := l;
      if !row.isPrimary { row := row.(isPrimary := true); }
      if row.currency == "" { row := row.(currency := "USD"); }
      ok := LeaseInsert !in ctx.faults && id !in leases && Storable(enforced, leases, id, row);
      if ok {
        leases := leases[id := row.(updatedAt := ctx.now)];
      }
    }

    method SetUnitStatus(org: Id, unit: Id, status: UnitStatus)
      modifies this
      ensures Contents() == old(Contents()).(units :=
                if unit in old(units) && old(units)[unit].org == org
                then old(units)[unit := old(units)[unit].(status := status)] else old(units))
    {
      if unit in units && units[unit].org == org {
        units := units[unit := units[unit].(status := status)];
      }
    }

    method UpdateRenewalOffer(ctx: Context, id: Id, status: OfferStatus) returns (ok: bool)
      requires id in offers
      modifies this
      ensures ok <==> OfferWrite !in ctx.faults
      ensures Contents() == if ok then WithOfferStatus(old(Contents()), id, status) else old(Contents())
    {
      ok := OfferWrite !in ctx.faults;
      if ok {
        offers := offers[id := offers[id].(status := status)];
      }
    }

    method CreateRenewalOffer(ctx: Context, id: Id, offer: Offer) returns (ok: bool)
      modifies this
      ensures ok <==> OfferWrite !in ctx.faults && id !in old(offers)
      ensures Contents() == if ok then old(Contents()).(offers := old(offers)[id := offer.(currency := OrUsd(offer.currency))])
                            else old(Contents())
    {
      ok := OfferWrite !in ctx.faults && id !in offers;
      if ok {
        offers := offers[id := if offer.currency == "" then offer.(currency := "USD") else offer];
      }
    }

    method CreateCloseout(ctx: Context, lease: Id, row: Closeout) returns (ok: bool)
      modifies this
      ensures ok <==> CloseoutWrite !in ctx.faults && lease !in old(closeouts)
      ensures Contents() == if ok then old(Contents()).(closeouts := old(closeouts)[lease := row.(currency := OrUsd(row.currency))])
                            else old(Contents())
    {
      ok := CloseoutWrite !in ctx.faults && lease !in closeouts;
      if ok {
        closeouts := closeouts[lease := if row.currency == "" then row.(currency := "USD") else row];
      }
    }
  }

  // The validator's loop: it answers whether some live lease of the list overlaps the candidate.
  method OverlapsActivePrimaryLease(candidate: Range, others: seq<Lease>) returns (found: bool)
    ensures found <==> exists o :: o in others && IsLive(o) && RangesOverlap(candidate, o.range)
  {
    for i := 0 to |others|
      invariant forall k :: 0 <= k < i ==> !(IsLive(others[k]) && RangesOverlap(candidate, others[k].range))
    {
      var o := others[i];
      if o.status != Active || !o.isPrimary {
        continue;
      }
      if RangesOverlap(candidate, o.range) {
        return true;
      }
    }
    return false;
  }

  // ---- what the column maps of the fixed updates make of a row ----

  function EndColumns(endAt: Instant, user: Id): Updates {
    var updates := map[StatusColumn := State(LeaseStatus.Ended), EndDate := Time(endAt)];
    if user == "" then updates else updates[UpdatedBy := Words(user)]
  }

  lemma EndColumnsApply(l: Lease, endAt: Instant, user: Id)
    ensures ApplyUpdates(l, EndColumns(endAt, user)) ==
            SignedBy(l.(status := LeaseStatus.Ended, range := Range(l.range.start, Some(endAt))), user)
  {
  }

  function RetireColumns(l: Lease, offer: Offer, user: Id): Updates {
    var updates := map[StatusColumn := State(LeaseStatus.Ended), UpdatedBy := Words(user)];
    if l.range.start < offer.range.start then updates[EndDate := Time(offer.range.start - SECOND)] else updates
  }

  lemma RetireColumnsApply(l: Lease, offer: Offer, user: Id)
    ensures ApplyUpdates(l, RetireColumns(l, offer, user)) == RetiredLease(l, offer, user)
  {
  }

  function CloseoutColumns(moveOut: Instant, user: Id): Updates {
    map[StatusColumn := State(LeaseStatus.Ended), EndDate := Time(moveOut), UpdatedBy := Words(user)]
  }

  lemma CloseoutColumnsApply(l: Lease, moveOut: Instant, user: Id)
    ensures ApplyUpdates(l, CloseoutColumns(moveOut, user)) ==
            l.(status := LeaseStatus.Ended, updatedBy := Some(user), range := Range(l.range.start, Some(moveOut)))
  {
  }

  class Service {
    const repo: Repository

    constructor (repo: Repository)
      ensures this.repo == repo
    {
      this.repo := repo;
    }

    method AssertNoPrimaryActiveOverlap(org: Id, exclude: Option<Id>, candidate: Lease) returns (clear: bool)
      ensures clear <==> !OverlapFound(repo.Contents(), org, exclude, candidate)
    {
      if candidate.status != Active || !candidate.isPrimary {
        return true;
      }
      var others := repo.ActivePrimaryLeasesForUnit(org, candidate.unit, exclude);
      var found := OverlapsActivePrimaryLease(candidate.range, others);
      return !found;
    }

    method SyncUnitOccupancy(ctx: Context, org: Id, unit: Id) returns (reply: Reply)
      modifies repo
      ensures (repo.Contents(), reply) == Settle(old(repo.Contents()), ctx, org, unit)
    {
      if Sync in ctx.faults {
        return Failed(Internal);
      }
      var n := repo.CountActiveLeasesOnUnit(org, unit);
      var status := Vacant;
      if n > 0 {
        status := Occupied;
      }
      repo.SetUnitStatus(org, unit, status);
      return Done;
    }

    method Create(ctx: Context, org: Id, req: CreateRequest, newId: Id) returns (reply: Reply)
      modifies repo
      ensures (repo.Contents(), reply) == CreateStep(repo.enforced, old(repo.Contents()), ctx, org, req, newId)
    {
      if !ctx.roleOk { return Failed(Forbidden); }
      if !WellOrdered(req.range) { return Failed(Validation); }
      if Load in ctx.faults { return Failed(Internal); }
      if req.tenant !in repo.tenants || repo.tenants[req.tenant] != org { return Failed(NotFound); }
      if req.unit !in repo.units || repo.units[req.unit].org != org { return Failed(NotFound); }
      if !ctx.unitOk { return Failed(Forbidden); }
      var status := PendingApproval;
      var parsed := ParseLeaseStatus(req.status);
      if parsed.Some? { status := parsed.value; }
      var isPrimary := true;
      if req.isPrimary.Some? { isPrimary := req.isPrimary.value; }
      var currency := Text.Upper(Text.TrimSpace(req.currency));
      if currency == "" { currency := "USD"; }
      var l := Lease(org, req.unit, req.tenant, req.range, req.rent, req.deposit, currency, req.dueDay,
                     req.amountOverride, Text.TrimSpace(Text.Lower(req.channel)), status, isPrimary, 0, By(ctx.user));
      var clear := AssertNoPrimaryActiveOverlap(org, None, l);
      if !clear { return Failed(LeaseOverlap); }
      var ok := repo.Create(ctx, newId, l);
      if !ok { return Failed(Internal); }
      reply := SyncUnitOccupancy(ctx, org, l.unit);
    }

    method Patch(ctx: Context, org: Id, id: Id, req: PatchRequest) returns (reply: Reply)
      modifies repo
      ensures (repo.Contents(), reply) == PatchStep(repo.enforced, old(repo.Contents()), ctx, org, id, req)
    {
      hide PatchedRow, OverlapFound, ParseLeaseStatus, PatchIsEmpty, HasActive, Storable;
      if !ctx.roleOk { return Failed(Forbidden); }
      var loaded := repo.GetByIDInOrg(ctx, org, id);
      if loaded.Err? { return Failed(loaded.error); }
      var cur := loaded.value;
      if !ctx.unitOk { return Failed(Forbidden); }
      if !StatusAccepted(req) { return Failed(Validation); }
      var next := PatchedRow(cur, req, ctx.user);
      if !WellOrdered(next.range) { return Failed(Validation); }
      var clear := AssertNoPrimaryActiveOverlap(org, Some(id), next);
      if !clear { return Failed(LeaseOverlap); }
      var updates := LeaseToUpdates(req, ctx.user);
      if updates == map[] { return Done; }
      UpdatesKeepIdentity(cur, updates);
      assert ApplyUpdates(cur, updates) == next;
      var ok := repo.Update(ctx, org, id, updates);
      if !ok { return Failed(Internal); }
      var refreshed := repo.leases[id];
      reply := SyncUnitOccupancy(ctx, org, cur.unit);
      // The service would also rederive a second unit; a patch cannot move a lease to one.
      assert refreshed.unit == cur.unit;
    }

    method End(ctx: Context, org: Id, id: Id, endDate: Option<Instant>) returns (reply: Reply)
      modifies repo
      ensures (repo.Contents(), reply) == EndStep(repo.enforced, old(repo.Contents()), ctx, org, id, endDate)
    {
      hide HasActive, Storable, ApplyUpdates;
      if !ctx.roleOk { return Failed(Forbidden); }
      var loaded := repo.GetByIDInOrg(ctx, org, id);
      if loaded.Err? { return Failed(loaded.error); }
      var l := loaded.value;
      if !ctx.unitOk { return Failed(Forbidden); }
      var endAt := ctx.now;
      if endDate.Some? { endAt := endDate.value; }
      if endAt <= l.range.start { return Failed(Validation); }
      var updates := map[StatusColumn := State(LeaseStatus.Ended), EndDate := Time(endAt)];
      if ctx.user != "" { updates := updates[UpdatedBy := Words(ctx.user)]; }
      assert updates == EndColumns(endAt, ctx.user);
      EndColumnsApply(l, endAt, ctx.user);
      var ok := repo.Update(ctx, org, id, updates);
      if !ok { return Failed(Internal); }
      reply := SyncUnitOccupancy(ctx, org, repo.leases[id].unit);
    }

    method Approve(ctx: Context, org: Id, id: Id) returns (reply: Reply)
      modifies repo
      ensures (repo.Contents(), reply) == DecideStep(repo.enforced, old(repo.Contents()), ctx, org, id, Active)
    {
      reply := Decide(ctx, org, id, Active);
    }

    method Reject(ctx: Context, org: Id, id: Id) returns (reply: Reply)
      modifies repo
      ensures (repo.Contents(), reply) == DecideStep(repo.enforced, old(repo.Contents()), ctx, org, id, Rejected)
    {
      reply := Decide(ctx, org, id, Rejected);
    }

    // The body Approve and Reject share.
    method Decide(ctx: Context, org: Id, id: Id, decision: LeaseStatus) returns (reply: Reply)
      modifies repo
      ensures (repo.Contents(), reply) == DecideStep(repo.enforced, old(repo.Contents()), ctx, org, id, decision)
    {
      hide HasActive, Storable;
      if !ctx.roleOk { return Failed(Forbidden); }
      var loaded := repo.GetByIDInOrg(ctx, org, id);
      if loaded.Err? { return Failed(loaded.error); }
      var l := loaded.value;
      if ctx.tenant != l.tenant { return Failed(Forbidden); }
      var updates := map[StatusColumn := State(decision)];
      assert ApplyUpdates(l, updates) == l.(status := decision);
      var ok := repo.Update(ctx, org, id, updates);
      if !ok { return Failed(Internal); }
      reply := SyncUnitOccupancy(ctx, org, repo.leases[id].unit);
    }

    method CreateRenewalOffer(ctx: Context, org: Id, id: Id, req: OfferRequest, newId: Id) returns (reply: Reply)
      modifies repo
      ensures (repo.Contents(), reply) == CreateOfferStep(old(repo.Contents()), ctx, org, id, req, newId)
    {
      if !ctx.roleOk { return Failed(Forbidden); }
      var loaded := repo.GetByIDInOrg(ctx, org, id);
      if loaded.Err? { return Failed(loaded.error); }
      if !ctx.unitOk { return Failed(Forbidden); }
      var currency := Text.Upper(Text.TrimSpace(req.currency));
      if currency == "" { currency := loaded.value.currency; }
      var ok := repo.CreateRenewalOffer(ctx, newId, Offer(org, id, req.range, req.rent, currency, Offered));
      if !ok { return Failed(Internal); }
      return Done;
    }

    // The loads and gates with which both decisions on an offer begin.
    method LoadOffer(ctx: Context, org: Id, id: Id, offerId: Id) returns (r: Result<Offer, Error>)
      ensures r == TenantOffer(repo.Contents(), ctx, org, id, offerId)
    {
      if !ctx.roleOk { return Err(Forbidden); }
      var loaded := repo.GetByIDInOrg(ctx, org, id);
      if loaded.Err? { return Err(loaded.error); }
      if ctx.tenant != loaded.value.tenant { return Err(Forbidden); }
      var found := FindOffer(repo.Contents(), org, id, offerId);
      if found.None? { return Err(NotFound); }
      return Ok(found.value);
    }

    method AcceptRenewalOffer(ctx: Context, org: Id, id: Id, offerId: Id, newId: Id) returns (reply: Reply)
      modifies repo
      ensures (repo.Contents(), reply) == AcceptStep(repo.enforced, old(repo.Contents()), ctx, org, id, offerId, newId)
    {
      hide HasActive, Storable, TenantOffer, ApplyUpdates, RetiredLease;
      var loaded := LoadOffer(ctx, org, id, offerId);
      if loaded.Err? { return Failed(loaded.error); }
      var offer := loaded.value;
      var l := repo.leases[id];
      if offer.status != Offered { return Failed(Validation); }
      var accepted := repo.UpdateRenewalOffer(ctx, offerId, Accepted);
      if !accepted { return Failed(Internal); }
      var updates := map[StatusColumn := State(LeaseStatus.Ended), UpdatedBy := Words(ctx.user)];
      if l.range.start < offer.range.start {
        updates := updates[EndDate := Time(offer.range.start - SECOND)];
      }
      assert updates == RetireColumns(l, offer, ctx.user);
      RetireColumnsApply(l, offer, ctx.user);
      var _ := repo.Update(ctx, org, id, updates);
      var renewed := Lease(org, l.unit, l.tenant, offer.range, offer.rent, None, offer.currency,
                           None, None, "", Active, true, 0, By(ctx.user));
      var ok := repo.Create(ctx, newId, renewed);
      if !ok { return Failed(Internal); }
      reply := SyncUnitOccupancy(ctx, org, l.unit);
    }

    method RejectRenewalOffer(ctx: Context, org: Id, id: Id, offerId: Id) returns (reply: Reply)
      modifies repo
      ensures (repo.Contents(), reply) == DeclineStep(old(repo.Contents()), ctx, org, id, offerId)
    {
      var loaded := LoadOffer(ctx, org, id, offerId);
      if loaded.Err? { return Failed(loaded.error); }
      var ok := repo.UpdateRenewalOffer(ctx, offerId, Declined);
      if !ok { return Failed(Internal); }
      return Done;
    }

    method Closeout(ctx: Context, org: Id, id: Id, req: CloseoutRequest) returns (reply: Reply)
      modifies repo
      ensures (repo.Contents(), reply) == CloseoutStep(repo.enforced, old(repo.Contents()), ctx, org, id, req)
    {
      hide HasActive, Storable, ApplyUpdates, Text.TrimSpace, Text.Upper;
      if !ctx.roleOk { return Failed(Forbidden); }
      var loaded := repo.GetByIDInOrg(ctx, org, id);
      if loaded.Err? { return Failed(loaded.error); }
      var l := loaded.value;
      if !ctx.unitOk { return Failed(Forbidden); }
      var currency := Text.Upper(Text.TrimSpace(req.currency));
      if currency == "" { currency := l.currency; }
      var written := repo.CreateCloseout(ctx, id, CloseoutRow(org, req.moveOut, req.settlement, currency));
      if !written { return Failed(Internal); }
      var updates := map[StatusColumn := State(LeaseStatus.Ended), EndDate := Time(req.moveOut), UpdatedBy := Words(ctx.user)];
      assert updates == CloseoutColumns(req.moveOut, ctx.user);
      CloseoutColumnsApply(l, req.moveOut, ctx.user);
      var ok := repo.Update(ctx, org, id, updates);
      if !ok { return Failed(Internal); }
      reply := SyncUnitOccupancy(ctx, org, l.unit);
    }
  }
}
