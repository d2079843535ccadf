/** What a request that is taken stores, column by column, in terms of the request's own words and of
    the row before it; and which requests make a lease active. */
module LeaseRows {
  import opened Common
  import opened Calendar
  import opened LeaseRanges
  import opened LeaseModel
  import opened LeaseSteps
  import opened LeaseTheorems
  import opened LeaseReplies
  import Text

  // ---- the words of the status column ----

  lemma StatusWords(s: string)
    ensures var word := Text.TrimSpace(Text.Lower(s));
            && (ParseLeaseStatus(s) == Some(Draft) <==> word == "draft")
            && (ParseLeaseStatus(s) == Some(PendingApproval) <==> word == "pending_approval")
            && (ParseLeaseStatus(s) == Some(Active) <==> word == "active")
            && (ParseLeaseStatus(s) == Some(Rejected) <==> word == "rejected")
            && (ParseLeaseStatus(s) == Some(LeaseStatus.Ended) <==> word == "ended")
            && (ParseLeaseStatus(s) == Some(Cancelled) <==> word == "cancelled")
  {
    hide Text.TrimSpace, Text.Lower;
  }

  // A Create that is taken stores the status its word names, and pending approval for any other word;
  // and every column as asked, with the defaults for a blank currency and the primary flag.
  lemma CreateStores(enforced: bool, t: Tables, ctx: Context, step: Step)
    requires step.Create? && Takes(enforced, t, ctx, step) && (enforced ==> Lawful(t.leases))
    ensures step.newId !in t.leases
    ensures var after := Next(enforced, t, ctx, step).0.leases;
            && after.Keys == t.leases.Keys + {step.newId}
            && (forall o :: o in t.leases ==> after[o] == t.leases[o])
            && var (l, req) := (after[step.newId], step.create);
            && var word := Text.TrimSpace(Text.Lower(req.status));
            && (l.status == Draft <==> word == "draft")
            && (l.status == Active <==> word == "active")
            && (l.status == Rejected <==> word == "rejected")
            && (l.status == LeaseStatus.Ended <==> word == "ended")
            && (l.status == Cancelled <==> word == "cancelled")
            && (l.status == PendingApproval <==> word !in {"draft", "active", "rejected", "ended", "cancelled"})
            && l.org == step.org && l.unit == req.unit && l.tenant == req.tenant && l.range == req.range && l.isPrimary
            && l.rent == req.rent && l.deposit == req.deposit && l.dueDay == req.dueDay && l.amountOverride == req.amountOverride
            && l.currency == (if Text.TrimSpace(req.currency) == "" then "USD" else Text.Upper(Text.TrimSpace(req.currency)))
            && l.channel == Text.TrimSpace(Text.Lower(req.channel))
            && (l.range.end == None || l.range.start < l.range.end.value)
            && l.updatedAt == ctx.now && l.updatedBy == (if ctx.user == "" then None else Some(ctx.user))
  {
    TakenIsFresh(enforced, t, ctx, step);
    hide Next, Takes, Lawful, NothingToWrite, ParseLeaseStatus, Text.TrimSpace;
    OneRowExact(enforced, t, ctx, step);
    StatusWords(step.create.status);
  }

  lemma TakenIsFresh(enforced: bool, t: Tables, ctx: Context, step: Step)
    requires step.Create? && Takes(enforced, t, ctx, step)
    ensures step.newId !in t.leases && WellOrdered(step.create.range)
  {
  }

  // A Patch that is taken names one of the six words, if it names a status, and stores it; a column it
  // does not name keeps its value.
  lemma PatchStores(enforced: bool, t: Tables, ctx: Context, step: Step)
    requires step.Patch? && Takes(enforced, t, ctx, step) && (enforced ==> Lawful(t.leases))
    ensures step.id in t.leases
    ensures var after := Next(enforced, t, ctx, step).0.leases;
            && after.Keys == t.leases.Keys
            && (forall o :: o in t.leases && o != step.id ==> after[o] == t.leases[o])
            && var (l, was, req) := (after[step.id], t.leases[step.id], step.patch);
            && (req.status.None? ==> l.status == was.status)
            && (req.status.Some? ==>
                  && var word := Text.TrimSpace(Text.Lower(req.status.value));
                  && word in {"draft", "pending_approval", "active", "rejected", "ended", "cancelled"}
                  && (l.status == Draft <==> word == "draft")
                  && (l.status == PendingApproval <==> word == "pending_approval")
                  && (l.status == Active <==> word == "active")
                  && (l.status == Rejected <==> word == "rejected")
                  && (l.status == LeaseStatus.Ended <==> word == "ended")
                  && (l.status == Cancelled <==> word == "cancelled"))
            && l.range.start == (if req.start.Some? then req.start.value else was.range.start)
            && l.range.end == (if req.end.Some? then req.end else was.range.end)
            && l.rent == (if req.rent.Some? then req.rent.value else was.rent)
            && l.deposit == (if req.deposit.Some? then req.deposit else was.deposit)
            && l.currency == (if req.currency.Some? then Text.Upper(Text.TrimSpace(req.currency.value)) else was.currency)
            && l.dueDay == (if req.dueDay.Some? then req.dueDay else was.dueDay)
            && l.amountOverride == (if req.amountOverride.Some? then req.amountOverride else was.amountOverride)
            && l.channel == (if req.channel.Some? then Text.TrimSpace(Text.Lower(req.channel.value)) else was.channel)
            && l.isPrimary == (if req.isPrimary.Some? then req.isPrimary.value else was.isPrimary)
            && (l.range.end == None || l.range.start < l.range.end.value)
            && l.org == was.org && l.unit == was.unit && l.tenant == was.tenant
            && l.updatedAt == ctx.now && l.updatedBy == (if ctx.user == "" then was.updatedBy else Some(ctx.user))
  {
    PatchLoads(enforced, t, ctx, step);
    hide Next, Takes, Lawful, NothingToWrite, ParseLeaseStatus, Text.TrimSpace, Text.Lower, Text.Upper;
    OneRowExact(enforced, t, ctx, step);
    if step.patch.status.Some? {
      Text.TrimAroundLower(step.patch.status.value);
      StatusWords(Text.TrimSpace(step.patch.status.value));
    }
  }

  lemma PatchLoads(enforced: bool, t: Tables, ctx: Context, step: Step)
    requires step.Patch? && Takes(enforced, t, ctx, step)
    ensures step.id in t.leases && StatusAccepted(step.patch)
    ensures WellOrdered(PatchedRow(t.leases[step.id], step.patch, ctx.user).range)
  {
    hide Permitted, OverlapFound, PatchedRow, PatchIsEmpty, ParseLeaseStatus, StatusAccepted;
  }

  // A decision that is taken sets the status and nothing else; an End sets status and end.
  lemma DecisionStores(enforced: bool, t: Tables, ctx: Context, step: Step)
    requires (step.Approve? || step.Reject? || step.End?) && Takes(enforced, t, ctx, step) && (enforced ==> Lawful(t.leases))
    ensures step.id in t.leases
    ensures step.End? ==> t.leases[step.id].range.start < if step.endDate.Some? then step.endDate.value else ctx.now
    ensures var l := t.leases[step.id].(updatedAt := ctx.now);
            Next(enforced, t, ctx, step).0.leases == t.leases[step.id :=
              match step
              case Approve(_, _) => l.(status := Active)
              case Reject(_, _) => l.(status := Rejected)
              case End(_, _, endDate) =>
                l.(status := LeaseStatus.Ended, range := Range(l.range.start, if endDate.Some? then endDate else Some(ctx.now)),
                   updatedBy := if ctx.user == "" then l.updatedBy else Some(ctx.user))
              case _ => l]
  {
    hide Next, Permitted, Lawful, NothingToWrite;
    OneRowExact(enforced, t, ctx, step);
  }

  // ---- who may ----

  // A request succeeds only for a caller whom the role gate lets through and only in the caller's
  // organization: on a unit and a tenant of it, on a lease of it, on an offer for that lease. The tenant's
  // own requests succeed only for the lease's tenant, the others only if the building gate is open.
  lemma SuccessIsAllowed(enforced: bool, t: Tables, ctx: Context, step: Step)
    requires Next(enforced, t, ctx, step).1 == Done
    ensures ctx.roleOk
    ensures if step.Create? then
              && step.create.tenant in t.tenants && t.tenants[step.create.tenant] == step.org
              && step.create.unit in t.units && t.units[step.create.unit].org == step.org
            else step.id in t.leases && t.leases[step.id].org == step.org
    ensures if step.Approve? || step.Reject? || step.AcceptRenewalOffer? || step.RejectRenewalOffer?
            then t.leases[step.id].tenant == ctx.tenant else ctx.unitOk
    ensures step.AcceptRenewalOffer? || step.RejectRenewalOffer? ==>
              && step.offer in t.offers && t.offers[step.offer].org == step.org && t.offers[step.offer].lease == step.id
    ensures step.AcceptRenewalOffer? ==> t.offers[step.offer].status == Offered
  {
    hide Commit, Settle, InsertOk, AfterRetiring, RenewedLease, OverlapFound, PatchedRow, NewLease, CurrencyFor,
         StatusAccepted, WellOrdered, PatchIsEmpty;
  }

  // ---- who makes a lease active ----

  predicate IsActive(leases: map<Id, Lease>, id: Id) {
    id in leases && leases[id].status == Active
  }

  // An approval of the lease, an acceptance that adds it, or a Create or Patch of it whose status word
  // reads active.
  predicate Activates(step: Step, id: Id) {
    || (step.Approve? && step.id == id)
    || (step.AcceptRenewalOffer? && step.newId == id)
    || (step.Create? && step.newId == id && Text.TrimSpace(Text.Lower(step.create.status)) == "active")
    || (step.Patch? && step.id == id && step.patch.status.Some?
        && Text.TrimSpace(Text.Lower(step.patch.status.value)) == "active")
  }

  // A lease that is not active becomes so exactly when such a request is taken.
  lemma ActivatesExactly(enforced: bool, t: Tables, ctx: Context, step: Step, id: Id)
    requires !IsActive(t.leases, id) && (enforced ==> Lawful(t.leases))
    ensures IsActive(Next(enforced, t, ctx, step).0.leases, id) <==> Takes(enforced, t, ctx, step) && Activates(step, id)
  {
    hide Next, Takes, Lawful, Text.TrimSpace, Text.Lower, Text.Upper;
    if WritesOneLease(step) {
      if Takes(enforced, t, ctx, step) {
        match step {
          case Create(_, _, _) => CreateStores(enforced, t, ctx, step);
          case Patch(_, _, _) => PatchStores(enforced, t, ctx, step);
          case CloseoutLease(_, _, _) => StandingAfter(enforced, t, ctx, step, id);
          case _ => DecisionStores(enforced, t, ctx, step);
        }
      } else {
        hide Written, NothingToWrite;
        OneRowExact(enforced, t, ctx, step);
      }
    } else {
      OfferActivates(enforced, t, ctx, step, id);
    }
  }

  lemma OfferActivates(enforced: bool, t: Tables, ctx: Context, step: Step, id: Id)
    requires !WritesOneLease(step) && !IsActive(t.leases, id) && (enforced ==> Lawful(t.leases))
    ensures IsActive(Next(enforced, t, ctx, step).0.leases, id) <==> Takes(enforced, t, ctx, step) && Activates(step, id)
  {
    if Acceptable(t, ctx, step) {
      hide Next, Takes, Lawful, TenantOffer, Retires;
      AcceptanceExact(enforced, t, ctx, step);
      if Takes(enforced, t, ctx, step) {
        TakesFresh(enforced, t, ctx, step);
      }
    } else {
      hide Next, Permitted, Lawful, TenantOffer;
      IdleOfferRequest(enforced, t, ctx, step);
    }
  }

  // Over every run, with any failures, a lease that ends up active was so at the start or was named by
  // an approval, an acceptance, or a Create or Patch whose word reads active.
  lemma {:induction false} ActiveOnlyByWord(enforced: bool, t: Tables, events: seq<Event>, id: Id)
    requires enforced ==> Lawful(t.leases)
    ensures IsActive(Run(enforced, t, events).leases, id) ==>
              IsActive(t.leases, id) || exists k :: 0 <= k < |events| && Activates(events[k].step, id)
    decreases |events|
  {
    hide Next, Lawful, IsActive, Activates, Takes;
    if events != [] {
      var (ctx, step) := (events[0].ctx, events[0].step);
      var next := Next(enforced, t, ctx, step).0;
      if !IsActive(t.leases, id) {
        ActivatesExactly(enforced, t, ctx, step, id);
      }
      if enforced {
        EnforcedStep(t, ctx, step);
      }
      ActiveOnlyByWord(enforced, next, events[1..], id);
      if k :| 0 <= k < |events| - 1 && Activates(events[1..][k].step, id) {
        assert events[k + 1] == events[1..][k];
      }
    }
  }

  // ---- the unit of the request ----

  // A success that wrote a lease leaves its unit occupied if an active lease is on it and vacant if
  // none is, whatever the column read before; every other unit keeps its status.
  lemma UnitStores(enforced: bool, t: Tables, ctx: Context, step: Step, u: Id)
    requires Scoped(t) && u in t.units && Next(enforced, t, ctx, step).1 == Done
    requires Next(enforced, t, ctx, step).0.leases != t.leases
    ensures var after := Next(enforced, t, ctx, step).0;
            var occupied := exists o :: o in after.leases && after.leases[o].unit == u && after.leases[o].status == Active;
            && u in after.units
            && (SubjectUnit(t, step) == Some(u) ==> after.units[u].status == if occupied then Occupied else Vacant)
            && (SubjectUnit(t, step) != Some(u) ==> after.units[u] == t.units[u])
  {
    hide Next, Scoped, HasActive;
    UnitsStep(enforced, t, ctx, step);
    ScopedStep(enforced, t, ctx, step);
    SubjectScoped(enforced, t, ctx, step);
    AgreesOnUnit(Next(enforced, t, ctx, step).0, u);
  }
}
