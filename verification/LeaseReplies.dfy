/** Which lease requests succeed, what each makes of a lease, and when the occupancy column stays
    right after a failure: exact conditions on the tables before the request, for both stores and
    for every set of failing database calls. */
module LeaseReplies {
  import opened Common
  import opened LeaseRanges
  import opened LeaseModel
  import opened LeaseSteps
  import opened LeaseTheorems
  import Calendar
  import Text

  // ---- which requests succeed ----

  predicate RederivesUnit(step: Step) {
    WritesOneLease(step) || IsAccept(step)
  }

  // A request succeeds exactly when it goes through, the constraints permit it, and the unit's
  // status can be rederived; the one other success is a patch that has nothing to write.
  lemma RepliesExact(enforced: bool, t: Tables, ctx: Context, step: Step)
    requires enforced ==> Lawful(t.leases)
    ensures Next(enforced, t, ctx, step).1 == Done <==>
            NothingToWrite(t, ctx, step) || (Takes(enforced, t, ctx, step) && (RederivesUnit(step) ==> Sync !in ctx.faults))
  {
    if WritesOneLease(step) {
      hide Next, GoesThrough, Permitted, Lawful;
      OneRowExact(enforced, t, ctx, step);
    } else if IsAccept(step) {
      if Acceptable(t, ctx, step) {
        hide Next, GoesThrough, Permitted, Lawful;
        AcceptanceExact(enforced, t, ctx, step);
      } else {
        hide Permitted, Lawful, TenantOffer;
        if TenantOffer(t, ctx, step.org, step.id, step.offer).Ok? {
          AcceptanceSubjects(t, ctx, step);
        }
      }
    } else {
      hide Lawful, CurrencyFor;
    }
  }

  // Of the requests that go through and write one lease, the constraints refuse exactly those after
  // which the store without constraints would hold an overlap or an ill-ordered range.
  lemma ConstraintsRefuseTheUnlawful(t: Tables, ctx: Context, step: Step)
    requires WritesOneLease(step) && Lawful(t.leases)
    ensures Takes(true, t, ctx, step) <==> GoesThrough(t, ctx, step) && Lawful(Next(false, t, ctx, step).0.leases)
  {
    hide Next, GoesThrough, Permitted, NothingToWrite, Disjoint, Clashes;
    OneRowExact(false, t, ctx, step);
    if GoesThrough(t, ctx, step) {
      StorableIffPermitted(t, ctx, step);
      var (id, l) := Written(t, ctx, step).value;
      StampedStore(t.leases, id, l, ctx.now);
      var after := t.leases[id := Stamped(l, ctx.now)];
      assert after[id].range == l.range;
    }
  }

  // A Create that skips the overlap check: refused as an internal error with the constraints,
  // stored and successful without them, and then two live leases share an instant on the unit.
  lemma SkippedCheckOutcome(t: Tables, ctx: Context, step: Step)
    requires Lawful(t.leases) && Scoped(t) && SkipsCheck(t, ctx, step)
    ensures Next(true, t, ctx, step) == (t, Failed(Internal))
    ensures Sync !in ctx.faults ==> Next(false, t, ctx, step).1 == Done
    ensures !Disjoint(Next(false, t, ctx, step).0.leases)
  {
    assert !Takes(true, t, ctx, step) && !Safe(t, ctx, step);
    StorableIffPermitted(t, ctx, step);
    RefusedInsert(t, ctx, step);
    hide Next, Disjoint, GoesThrough, ClashFree, MeetsOther;
    UncheckedStepExact(t, ctx, step);
    RepliesExact(false, t, ctx, step);
  }

  lemma RefusedInsert(t: Tables, ctx: Context, step: Step)
    requires step.Create? && GoesThrough(t, ctx, step)
    requires !Storable(true, t.leases, step.newId, AsInserted(NewLease(step.org, step.create, ctx.user)))
    ensures Next(true, t, ctx, step) == (t, Failed(Internal))
  {
    hide Storable, OverlapFound, NewLease;
  }

  // ---- the occupancy column after any reply ----

  predicate ActiveOn(leases: map<Id, Lease>, unit: Id) {
    exists o :: o in leases && leases[o].unit == unit && leases[o].status == Active
  }

  predicate OtherActive(leases: map<Id, Lease>, unit: Id, id: Id) {
    exists o :: o in leases && o != id && leases[o].unit == unit && leases[o].status == Active
  }

  // What decides, before the request, whether the column is right after it. A failure to rederive
  // the unit does no harm if the write changed nothing about the unit's having an active lease. A
  // refused acceptance does no harm unless it retired the unit's only active lease.
  predicate ColumnStaysRight(enforced: bool, t: Tables, ctx: Context, step: Step) {
    if WritesOneLease(step) then
      Takes(enforced, t, ctx, step) && Sync in ctx.faults && Written(t, ctx, step).Some? ==>
        var (id, l) := Written(t, ctx, step).value;
        OtherActive(t.leases, l.unit, id) || (l.status == Active <==> id in t.leases && t.leases[id].status == Active)
    else if Acceptable(t, ctx, step) then
      var (l, offer) := (t.leases[step.id], t.offers[step.offer]);
      || OtherActive(t.leases, l.unit, step.id)
      || (if Takes(enforced, t, ctx, step) then Sync !in ctx.faults || l.status == Active
          else l.status != Active || !Retires(enforced, ctx, l, offer))
    else true
  }

  // A store whose units rows did not move agrees exactly when the subject unit's having an active
  // lease did not change.
  lemma AgreesIffActivityKept(t: Tables, after: Tables, u: Id)
    requires Agrees(t) && after.units == t.units && u in t.units && OnlyOnUnit(t.leases, after.leases, u)
    ensures Agrees(after) <==> (ActiveOn(t.leases, u) <==> ActiveOn(after.leases, u))
  {
    forall v | v in t.units && v != u ensures ActiveOn(t.leases, v) <==> ActiveOn(after.leases, v) {
      OtherUnitUnmoved(t.leases, after.leases, u, v);
    }
    assert forall v :: v in t.units ==> (t.units[v].status == Occupied <==> ActiveOn(t.leases, v));
  }

  lemma ActiveAfterStore(leases: map<Id, Lease>, id: Id, l: Lease, now: Instant)
    requires id in leases ==> leases[id].unit == l.unit
    ensures ActiveOn(leases[id := Stamped(l, now)], l.unit) <==> OtherActive(leases, l.unit, id) || l.status == Active
    ensures ActiveOn(leases, l.unit) <==> OtherActive(leases, l.unit, id) || (id in leases && leases[id].status == Active)
  {
    var after := leases[id := Stamped(l, now)];
    assert l.status == Active ==> after[id].unit == l.unit && after[id].status == Active;
    if o :| o in leases && o != id && leases[o].unit == l.unit && leases[o].status == Active {
      assert after[o] == leases[o];
    }
  }

  lemma NothingToWriteIsNotTaken(enforced: bool, t: Tables, ctx: Context, step: Step)
    requires NothingToWrite(t, ctx, step)
    ensures WritesOneLease(step) && !Takes(enforced, t, ctx, step)
  {
    hide Permitted;
  }

  lemma SameRowsAgree(t: Tables, after: Tables)
    requires Agrees(t) && after.leases == t.leases && after.units == t.units
    ensures Agrees(after)
  {
  }

  lemma FailedWriteColumn(enforced: bool, t: Tables, ctx: Context, step: Step)
    requires Scoped(t) && Agrees(t) && (enforced ==> Lawful(t.leases)) && WritesOneLease(step)
    requires Next(enforced, t, ctx, step).1 != Done && Next(enforced, t, ctx, step).0.units == t.units
    ensures Agrees(Next(enforced, t, ctx, step).0) <==> ColumnStaysRight(enforced, t, ctx, step)
  {
    hide Next, Agrees, Permitted, Lawful, OnlyOnUnit, OtherActive, ActiveOn, NothingToWrite;
    var after := Next(enforced, t, ctx, step).0;
    OneRowExact(enforced, t, ctx, step);
    if Takes(enforced, t, ctx, step) {
      var (id, l) := Written(t, ctx, step).value;
      WrittenUnit(t, ctx, step);
      assert l.unit in t.units;
      hide Written, Takes, GoesThrough;
      StoreOnUnit(t.leases, id, l, ctx.now);
      ActiveAfterStore(t.leases, id, l, ctx.now);
      AgreesIffActivityKept(t, after, l.unit);
    } else {
      SameRowsAgree(t, after);
    }
  }

  lemma IdleOfferRequest(enforced: bool, t: Tables, ctx: Context, step: Step)
    requires !WritesOneLease(step) && !Acceptable(t, ctx, step)
    ensures Next(enforced, t, ctx, step).0.leases == t.leases
  {
    hide CurrencyFor;
    if IsAccept(step) && TenantOffer(t, ctx, step.org, step.id, step.offer).Ok? {
      AcceptanceSubjects(t, ctx, step);
    }
  }

  lemma FailedOfferColumn(enforced: bool, t: Tables, ctx: Context, step: Step)
    requires Scoped(t) && Agrees(t) && (enforced ==> Lawful(t.leases)) && !WritesOneLease(step)
    requires Next(enforced, t, ctx, step).1 != Done && Next(enforced, t, ctx, step).0.units == t.units
    ensures Agrees(Next(enforced, t, ctx, step).0) <==> ColumnStaysRight(enforced, t, ctx, step)
  {
    hide Next, Agrees, Takes, Lawful, OnlyOnUnit, OtherActive, ActiveOn, TenantOffer, Retires, RenewedLease, RetiredLease;
    var after := Next(enforced, t, ctx, step).0;
    if Acceptable(t, ctx, step) {
      AcceptanceExact(enforced, t, ctx, step);
      if Takes(enforced, t, ctx, step) {
        TakesFresh(enforced, t, ctx, step);
      }
      AcceptedColumn(enforced, t, after, ctx, step.id, step.newId, t.offers[step.offer], Takes(enforced, t, ctx, step));
    } else {
      IdleOfferRequest(enforced, t, ctx, step);
      SameRowsAgree(t, after);
    }
  }

  lemma TakesFresh(enforced: bool, t: Tables, ctx: Context, step: Step)
    requires IsAccept(step) && Takes(enforced, t, ctx, step)
    ensures step.newId !in t.leases
  {
    hide Permitted, Acceptable;
  }

  // The unit after the lease writes of an acceptance, if its status was not rederived.
  lemma AcceptedColumn(enforced: bool, t: Tables, after: Tables, ctx: Context, id: Id, newId: Id, offer: Offer, adds: bool)
    requires Scoped(t) && Agrees(t) && id in t.leases && after.units == t.units && (adds ==> newId !in t.leases)
    requires var mid := MidLeases(enforced, t.leases, ctx, id, offer);
             after.leases == if adds then mid[newId := Stamped(RenewedLease(t.leases[id], offer, ctx.user), ctx.now)] else mid
    ensures var l := t.leases[id];
            Agrees(after) <==>
              || OtherActive(t.leases, l.unit, id)
              || (if adds then l.status == Active else l.status != Active || !Retires(enforced, ctx, l, offer))
  {
    hide Agrees, OnlyOnUnit, OtherActive, ActiveOn, Retires;
    var l := t.leases[id];
    var mid := MidLeases(enforced, t.leases, ctx, id, offer);
    var retired := RetiredLease(l, offer, ctx.user);
    var renewed := RenewedLease(l, offer, ctx.user);
    assert l.unit in t.units;
    assert renewed.unit == l.unit && renewed.status == Active && retired.unit == l.unit && retired.status == LeaseStatus.Ended;
    StoreOnUnit(t.leases, id, retired, ctx.now);
    NothingOnUnit(t.leases, l.unit);
    ActiveAfterStore(t.leases, id, retired, ctx.now);
    if adds {
      StoreOnUnit(mid, newId, renewed, ctx.now);
      OnlyOnUnitTransitive(t.leases, mid, after.leases, l.unit);
      ActiveAfterStore(mid, newId, renewed, ctx.now);
    }
    AgreesIffActivityKept(t, after, l.unit);
  }

  // Main result on failures: whatever the reply, the column agrees with the leases after a request
  // exactly when the tables before it say so. After a success it always does.
  lemma ColumnExact(enforced: bool, t: Tables, ctx: Context, step: Step)
    requires Scoped(t) && Agrees(t) && (enforced ==> Lawful(t.leases))
    ensures Agrees(Next(enforced, t, ctx, step).0) <==> ColumnStaysRight(enforced, t, ctx, step)
    ensures Next(enforced, t, ctx, step).1 == Done ==> Agrees(Next(enforced, t, ctx, step).0)
  {
    hide Next, Scoped, Agrees, Takes, Lawful, OnlyOnUnit, OtherActive, NothingToWrite, TenantOffer;
    var (after, reply) := Next(enforced, t, ctx, step);
    RepliesExact(enforced, t, ctx, step);
    if reply == Done {
      SuccessAgrees(enforced, t, ctx, step);
      if NothingToWrite(t, ctx, step) {
        NothingToWriteIsNotTaken(enforced, t, ctx, step);
      }
    } else {
      UnitsStep(enforced, t, ctx, step);
      if WritesOneLease(step) {
        FailedWriteColumn(enforced, t, ctx, step);
      } else {
        FailedOfferColumn(enforced, t, ctx, step);
      }
    }
  }

  // ---- what a request makes of a lease ----

  // What decides where a lease stands: its unit and tenant, its status, range and primary flag.
  datatype Standing = Standing(unit: Id, tenant: Id, status: LeaseStatus, range: Range, isPrimary: bool)

  function StandingOf(leases: map<Id, Lease>, id: Id): Option<Standing> {
    if id in leases then
      var l := leases[id];
      Some(Standing(l.unit, l.tenant, l.status, l.range, l.isPrimary))
    else None
  }

  // What a request that writes one lease asks for.
  function Asked(t: Tables, ctx: Context, step: Step): (Id, Standing)
    requires WritesOneLease(step) && GoesThrough(t, ctx, step)
  {
    if step.Create? then
      var req := step.create;
      (step.newId, Standing(req.unit, req.tenant, GetOr(ParseLeaseStatus(req.status), PendingApproval), req.range, true))
    else
      var l := t.leases[step.id];
      var was := StandingOf(t.leases, step.id).value;
      (step.id,
       match step
       case Patch(_, _, req) =>
         was.(status := if req.status.Some? then GetOr(ParseLeaseStatus(Text.TrimSpace(req.status.value)), l.status) else l.status,
              range := Range(GetOr(req.start, l.range.start), if req.end.Some? then req.end else l.range.end),
              isPrimary := GetOr(req.isPrimary, l.isPrimary))
       case Approve(_, _) => was.(status := Active)
       case Reject(_, _) => was.(status := Rejected)
       case End(_, _, endDate) => was.(status := LeaseStatus.Ended, range := Range(l.range.start, Some(GetOr(endDate, ctx.now))))
       case _ => was.(status := LeaseStatus.Ended, range := Range(l.range.start, Some(step.closeout.moveOut))))
  }

  // Where a request puts lease id, if it touches it at all.
  function Puts(enforced: bool, t: Tables, ctx: Context, step: Step, id: Id): Option<Standing> {
    if WritesOneLease(step) then
      if Takes(enforced, t, ctx, step) && Asked(t, ctx, step).0 == id then Some(Asked(t, ctx, step).1) else None
    else if Acceptable(t, ctx, step) then
      var (l, offer) := (t.leases[step.id], t.offers[step.offer]);
      if id == step.newId && Takes(enforced, t, ctx, step) then
        Some(Standing(l.unit, l.tenant, Active, offer.range, true))
      else if id == step.id && Retires(enforced, ctx, l, offer) then
        Some(Standing(l.unit, l.tenant, LeaseStatus.Ended,
                      if l.range.start < offer.range.start
                      then Range(l.range.start, Some(offer.range.start - Calendar.SECOND)) else l.range,
                      l.isPrimary))
      else None
    else None
  }

  lemma AskedIsWritten(t: Tables, ctx: Context, step: Step)
    requires WritesOneLease(step) && GoesThrough(t, ctx, step) && Written(t, ctx, step).Some?
    ensures var ((id, l), (asked, standing)) := (Written(t, ctx, step).value, Asked(t, ctx, step));
            id == asked && standing == Standing(l.unit, l.tenant, l.status, l.range, l.isPrimary)
  {
    hide OverlapFound, ParseLeaseStatus, Text.TrimSpace, Text.Upper, Text.Lower, PatchIsEmpty;
  }

  // A request puts a lease where it asks, or leaves it where it stood.
  lemma StandingAfter(enforced: bool, t: Tables, ctx: Context, step: Step, id: Id)
    requires enforced ==> Lawful(t.leases)
    ensures StandingOf(Next(enforced, t, ctx, step).0.leases, id) ==
            if Puts(enforced, t, ctx, step, id).Some? then Puts(enforced, t, ctx, step, id) else StandingOf(t.leases, id)
  {
    hide Next, Permitted, Lawful, NothingToWrite, TenantOffer;
    if WritesOneLease(step) {
      OneRowExact(enforced, t, ctx, step);
      if Takes(enforced, t, ctx, step) {
        AskedIsWritten(t, ctx, step);
      }
      hide GoesThrough, Written, Asked;
    } else if Acceptable(t, ctx, step) {
      AcceptanceExact(enforced, t, ctx, step);
    } else {
      IdleOfferRequest(enforced, t, ctx, step);
    }
  }

  // The requests that bring an ended lease back: a decision of its tenant, or a patch that names
  // another status. Neither an End nor an acceptance nor a closeout does.
  predicate Revives(step: Step, id: Id) {
    || (step.Approve? && step.id == id)
    || (step.Reject? && step.id == id)
    || (step.Patch? && step.id == id && step.patch.status.Some?
        && ParseLeaseStatus(Text.TrimSpace(step.patch.status.value)) != Some(LeaseStatus.Ended))
  }

  // An ended lease leaves that status exactly when such a request is taken.
  lemma EndedLeavesExactly(enforced: bool, t: Tables, ctx: Context, step: Step, id: Id)
    requires id in t.leases && t.leases[id].status == LeaseStatus.Ended && (enforced ==> Lawful(t.leases))
    ensures StandingOf(Next(enforced, t, ctx, step).0.leases, id).Some?
    ensures StandingOf(Next(enforced, t, ctx, step).0.leases, id).value.status != LeaseStatus.Ended
            <==> Takes(enforced, t, ctx, step) && Revives(step, id)
  {
    hide Next, Permitted, Lawful, TenantOffer, OverlapFound, ParseLeaseStatus, Text.TrimSpace, PatchIsEmpty, PatchedRow, HasActive;
    StandingAfter(enforced, t, ctx, step, id);
    if IsAccept(step) && Takes(enforced, t, ctx, step) {
      TakesFresh(enforced, t, ctx, step);
    }
  }

  // So over every run in which no request of that kind names the lease, it stays ended.
  lemma {:induction false} EndedForGood(enforced: bool, t: Tables, events: seq<Event>, id: Id)
    requires id in t.leases && t.leases[id].status == LeaseStatus.Ended && (enforced ==> Lawful(t.leases))
    requires forall e :: e in events ==> !Revives(e.step, id)
    ensures id in Run(enforced, t, events).leases && Run(enforced, t, events).leases[id].status == LeaseStatus.Ended
    decreases |events|
  {
    hide Next, Lawful, Revives, Takes;
    if events != [] {
      var (ctx, step) := (events[0].ctx, events[0].step);
      assert events[0] in events;
      EndedLeavesExactly(enforced, t, ctx, step, id);
      if enforced {
        EnforcedStep(t, ctx, step);
      }
      EndedForGood(enforced, Next(enforced, t, ctx, step).0, events[1..], id);
    }
  }

  // Lease id is stored, and not as primary.
  predicate Secondary(leases: map<Id, Lease>, id: Id) {
    id in leases && !leases[id].isPrimary
  }

  // The patch names the primary flag, and names it false.
  predicate Demotes(step: Step, id: Id) {
    step.Patch? && step.id == id && step.patch.isPrimary == Some(false)
  }

  lemma SecondaryStep(enforced: bool, t: Tables, ctx: Context, step: Step, id: Id)
    requires enforced ==> Lawful(t.leases)
    ensures Secondary(Next(enforced, t, ctx, step).0.leases, id) ==> Secondary(t.leases, id) || Demotes(step, id)
  {
    hide Next, Permitted, Lawful, TenantOffer, OverlapFound, ParseLeaseStatus, Text.TrimSpace, PatchIsEmpty, PatchedRow, HasActive;
    StandingAfter(enforced, t, ctx, step, id);
  }

  // Nothing but such a patch makes a lease secondary: over every run, a lease that ends up so was so
  // at the start or was named by one, whatever flag it was created with.
  lemma {:induction false} SecondaryOnlyByPatch(enforced: bool, t: Tables, events: seq<Event>, id: Id)
    requires enforced ==> Lawful(t.leases)
    ensures Secondary(Run(enforced, t, events).leases, id) ==>
              Secondary(t.leases, id) || exists k :: 0 <= k < |events| && Demotes(events[k].step, id)
    decreases |events|
  {
    hide Next, Lawful, Secondary, Demotes;
    if events != [] {
      var (ctx, step) := (events[0].ctx, events[0].step);
      var next := Next(enforced, t, ctx, step).0;
      SecondaryStep(enforced, t, ctx, step, id);
      if enforced {
        EnforcedStep(t, ctx, step);
      }
      SecondaryOnlyByPatch(enforced, next, events[1..], id);
      if k :| 0 <= k < |events| - 1 && Demotes(events[1..][k].step, id) {
        assert events[k + 1] == events[1..][k];
      }
    }
  }
}
