/** What every run of lease requests keeps: who occupies a unit at any instant, which rows
    ever move, and what the occupancy column says. */
module LeaseTheorems {
  import opened Common
  import Calendar
  import opened LeaseRanges
  import opened LeaseModel
  import opened LeaseSteps
  import Text

  // ---- at most one live lease per unit and instant ----

  ghost predicate Apart(a: Lease, b: Lease) {
    !(IsLive(a) && IsLive(b) && a.unit == b.unit && Meets(a.range, b.range))
  }

  ghost predicate Disjoint(leases: map<Id, Lease>) {
    forall a, b :: a in leases && b in leases && a != b ==> Apart(leases[a], leases[b])
  }

  // Disjointness, said with instants: no unit has two live leases at one instant.
  lemma DisjointIffOneLeaseAtATime(leases: map<Id, Lease>)
    ensures Disjoint(leases) <==>
            forall a, b, t | a in leases && b in leases && a != b
              && leases[a].status == Active && leases[a].isPrimary && leases[b].status == Active && leases[b].isPrimary
              && leases[a].unit == leases[b].unit ::
              !(Covers(leases[a].range, t) && Covers(leases[b].range, t))
  {
    forall a, b | a in leases && b in leases {
      MeetsIffSharedInstant(leases[a].range, leases[b].range);
    }
    if !Disjoint(leases) {
      var a, b :| a in leases && b in leases && a != b && !Apart(leases[a], leases[b]);
      var t :| Covers(leases[a].range, t) && Covers(leases[b].range, t);
    }
  }

  // Storing one row keeps disjointness exactly when the row meets no other live lease of its unit.
  lemma StoreExact(leases: map<Id, Lease>, id: Id, l: Lease)
    requires Disjoint(leases)
    ensures Disjoint(leases[id := l]) <==> !Clashes(leases, id, l)
  {
    var after := leases[id := l];
    if Clashes(leases, id, l) {
      var o :| o in leases && o != id && IsLive(leases[o]) && leases[o].unit == l.unit
               && Meets(l.range, leases[o].range);
      assert !Apart(after[id], after[o]);
    } else {
      forall a, b | a in after && b in after && a != b ensures Apart(after[a], after[b]) {
        if a != id && b != id {
          assert Apart(leases[a], leases[b]);
        }
      }
    }
  }

  lemma StampedStore(leases: map<Id, Lease>, id: Id, l: Lease, now: Instant)
    requires Disjoint(leases)
    ensures Disjoint(leases[id := Stamped(l, now)]) <==> !Clashes(leases, id, l)
  {
    StoreExact(leases, id, Stamped(l, now));
  }

  // ---- the row a request writes ----

  // The row a request other than an acceptance writes, if it writes any.
  function Written(t: Tables, ctx: Context, step: Step): Option<(Id, Lease)> {
    match step
    case Create(org, req, newId) => Some((newId, AsInserted(NewLease(org, req, ctx.user))))
    case Patch(org, id, req) =>
      if id in t.leases then Some((id, PatchedRow(t.leases[id], req, ctx.user))) else None
    case End(org, id, endDate) =>
      if id in t.leases then
        var l := t.leases[id];
        Some((id, SignedBy(l.(status := LeaseStatus.Ended, range := Range(l.range.start, Some(GetOr(endDate, ctx.now)))), ctx.user)))
      else None
    case Approve(org, id) => if id in t.leases then Some((id, t.leases[id].(status := Active))) else None
    case Reject(org, id) => if id in t.leases then Some((id, t.leases[id].(status := Rejected))) else None
    case CloseoutLease(org, id, req) =>
      if id in t.leases then
        var l := t.leases[id];
        Some((id, l.(status := LeaseStatus.Ended, updatedBy := Some(ctx.user), range := Range(l.range.start, Some(req.moveOut)))))
      else None
    case _ => None
  }

  predicate IsAccept(step: Step) {
    step.AcceptRenewalOffer?
  }

  ghost predicate WroteOne(enforced: bool, t: Tables, ctx: Context, step: Step, after: Tables) {
    && Written(t, ctx, step).Some?
    && var (id, l) := Written(t, ctx, step).value;
       && after.leases == t.leases[id := Stamped(l, ctx.now)]
       && Storable(enforced, t.leases, id, l)
       && (if step.Create?
           then id !in t.leases && l.unit in t.units && t.units[l.unit].org == l.org
           else FindLease(t, step.org, id).Some? && id == step.id)
       && (step.Create? ==> WellOrdered(l.range) && !OverlapFound(t, step.org, None, NewLease(step.org, step.create, ctx.user)))
       && (step.Patch? ==> WellOrdered(l.range) && !OverlapFound(t, step.org, Some(id), l))
  }

  // Every request other than an acceptance writes at most that one lease row, after its checks.
  lemma OneWrite(enforced: bool, t: Tables, ctx: Context, step: Step)
    requires !IsAccept(step)
    ensures var after := Next(enforced, t, ctx, step).0;
            after.leases == t.leases || WroteOne(enforced, t, ctx, step, after)
  {
    if WritesOneLease(step) {
      hide Next, Storable, OverlapFound, NewLease, PatchedRow, ParseLeaseStatus, StatusAccepted, PatchIsEmpty;
      RowOutcomeHolds(enforced, t, ctx, step);
    } else {
      hide CurrencyFor;
    }
  }

  ghost predicate WroteAcceptance(enforced: bool, t: Tables, ctx: Context, step: Step, after: Tables)
    requires IsAccept(step)
  {
    && TenantOffer(t, ctx, step.org, step.id, step.offer).Ok?
    && var offer := TenantOffer(t, ctx, step.org, step.id, step.offer).value;
       var l := FindLease(t, step.org, step.id).value;
       var mid := AfterRetiring(enforced, WithOfferStatus(t, step.offer, Accepted), ctx, step.id, l, offer);
       var renewed := RenewedLease(l, offer, ctx.user);
       && offer.status == Offered
       && (|| after.leases == mid.leases
           || (&& step.newId !in mid.leases
               && Storable(enforced, mid.leases, step.newId, renewed)
               && after.leases == mid.leases[step.newId := Stamped(renewed, ctx.now)]))
  }

  lemma AcceptanceWrites(enforced: bool, t: Tables, ctx: Context, step: Step)
    requires IsAccept(step)
    ensures var after := Next(enforced, t, ctx, step).0;
            after.leases == t.leases || WroteAcceptance(enforced, t, ctx, step, after)
  {
    hide Storable, AfterRetiring, RenewedLease, Settle, Stamped;
    if TenantOffer(t, ctx, step.org, step.id, step.offer).Ok? {
      AcceptanceSubjects(t, ctx, step);
      var l, offer := t.leases[step.id], t.offers[step.offer];
      hide TenantOffer;
      var mid := AfterRetiring(enforced, WithOfferStatus(t, step.offer, Accepted), ctx, step.id, l, offer);
      SettleReply(WithLease(mid, ctx, step.newId, RenewedLease(l, offer, ctx.user)), ctx, step.org, l.unit);
    }
  }

  // ---- with the constraints: disjointness over every run, whatever fails on the way ----

  ghost predicate Lawful(leases: map<Id, Lease>) {
    Disjoint(leases) && forall id :: id in leases ==> WellOrdered(leases[id].range)
  }

  lemma LawfulStore(leases: map<Id, Lease>, id: Id, l: Lease, now: Instant)
    requires Lawful(leases) && Storable(true, leases, id, l)
    ensures Lawful(leases[id := Stamped(l, now)])
  {
    StampedStore(leases, id, l, now);
  }

  lemma EnforcedStep(t: Tables, ctx: Context, step: Step)
    requires Lawful(t.leases)
    ensures Lawful(Next(true, t, ctx, step).0.leases)
  {
    hide Next, Lawful, Storable, RetiredLease, RenewedLease, Written, OverlapFound, Stamped;
    var after := Next(true, t, ctx, step).0;
    if IsAccept(step) {
      AcceptanceWrites(true, t, ctx, step);
      if after.leases != t.leases {
        var offer := TenantOffer(t, ctx, step.org, step.id, step.offer).value;
        var l := FindLease(t, step.org, step.id).value;
        var started := WithOfferStatus(t, step.offer, Accepted);
        var retired := RetiredLease(l, offer, ctx.user);
        if UpdateOk(true, started, ctx, step.id, retired) {
          LawfulStore(t.leases, step.id, retired, ctx.now);
        }
        var mid := AfterRetiring(true, started, ctx, step.id, l, offer);
        assert Lawful(mid.leases);
        if after.leases != mid.leases {
          LawfulStore(mid.leases, step.newId, RenewedLease(l, offer, ctx.user), ctx.now);
        }
      }
    } else {
      OneWrite(true, t, ctx, step);
      if after.leases != t.leases {
        var (id, l) := Written(t, ctx, step).value;
        LawfulStore(t.leases, id, l, ctx.now);
      }
    }
  }

  // Main result with EXCLUDE and CHECK in place: no run, whatever requests and whatever
  // database failures it contains, ever has two live leases of a unit at one instant.
  lemma {:induction false} EnforcedRun(t: Tables, events: seq<Event>)
    requires Lawful(t.leases)
    ensures Lawful(Run(true, t, events).leases)
    decreases |events|
  {
    hide Next, Lawful;
    if events != [] {
      EnforcedStep(t, events[0].ctx, events[0].step);
      EnforcedRun(Next(true, t, events[0].ctx, events[0].step).0, events[1..]);
    }
  }

  // ---- without the constraints: exactly which steps are safe ----

  // Every lease belongs to the organization of its unit.
  ghost predicate Scoped(t: Tables) {
    forall id :: id in t.leases ==>
      t.leases[id].unit in t.units && t.units[t.leases[id].unit].org == t.leases[id].org
  }

  // A clash the service's overlap check cannot see: it involves a start past the year 9999.
  predicate BlindClash(leases: map<Id, Lease>, id: Id, l: Lease) {
    IsLive(l) &&
    exists o :: o in leases && o != id && IsLive(leases[o]) && leases[o].unit == l.unit
      && Meets(l.range, leases[o].range) && PastSentinel(l.range, leases[o].range)
  }

  // The check that Create and Patch make leaves exactly the blind clashes.
  lemma CheckLeavesBlindClashes(t: Tables, exclude: Option<Id>, id: Id, l: Lease)
    requires Scoped(t) && l.unit in t.units && t.units[l.unit].org == l.org
    requires exclude == Some(id) || (exclude == None && id !in t.leases)
    requires !OverlapFound(t, l.org, exclude, l)
    ensures Clashes(t.leases, id, l) <==> BlindClash(t.leases, id, l)
  {
    if Clashes(t.leases, id, l) {
      var o :| o in t.leases && o != id && IsLive(t.leases[o]) && t.leases[o].unit == l.unit
               && Meets(l.range, t.leases[o].range);
      assert !RangesOverlap(l.range, t.leases[o].range);
      assert PastSentinel(l.range, t.leases[o].range);
    }
  }

  predicate InsertsLease(enforced: bool, t: Tables, ctx: Context, step: Step)
    requires IsAccept(step)
  {
    step.newId !in t.leases && step.newId in Next(enforced, t, ctx, step).0.leases
  }

  // Some live lease of the unit, other than the excluded one, meets the range.
  predicate MeetsOther(leases: map<Id, Lease>, unit: Id, range: Range, exclude: Option<Id>) {
    exists o :: o in leases && Some(o) != exclude && IsLive(leases[o]) && leases[o].unit == unit && Meets(range, leases[o].range)
  }

  // The acceptance passes its gates and its offer is open.
  predicate Acceptable(t: Tables, ctx: Context, step: Step) {
    && step.AcceptRenewalOffer?
    && TenantOffer(t, ctx, step.org, step.id, step.offer).Ok?
    && t.offers[step.offer].status == Offered
    && OfferWrite !in ctx.faults
  }

  // The request passes its gates and checks, and the writes its success depends on do not fail.
  predicate GoesThrough(t: Tables, ctx: Context, step: Step) {
    match step
    case Create(org, req, newId) =>
      && ctx.roleOk && WellOrdered(req.range) && Load !in ctx.faults
      && req.tenant in t.tenants && t.tenants[req.tenant] == org
      && req.unit in t.units && t.units[req.unit].org == org && ctx.unitOk
      && !OverlapFound(t, org, None, NewLease(org, req, ctx.user))
      && LeaseInsert !in ctx.faults && newId !in t.leases
    case Patch(org, id, req) =>
      && PatchChecked(t, ctx, org, id, req)
      && !(PatchIsEmpty(req) && ctx.user == "") && LeaseUpdate !in ctx.faults
    case End(org, id, endDate) =>
      && LeaseLoads(t, ctx, org, id) && ctx.unitOk
      && t.leases[id].range.start < GetOr(endDate, ctx.now) && LeaseUpdate !in ctx.faults
    case Approve(org, id) => LeaseLoads(t, ctx, org, id) && t.leases[id].tenant == ctx.tenant && LeaseUpdate !in ctx.faults
    case Reject(org, id) => LeaseLoads(t, ctx, org, id) && t.leases[id].tenant == ctx.tenant && LeaseUpdate !in ctx.faults
    case CreateRenewalOffer(org, id, _, newId) =>
      LeaseLoads(t, ctx, org, id) && ctx.unitOk && OfferWrite !in ctx.faults && newId !in t.offers
    case AcceptRenewalOffer(_, _, _, newId) => Acceptable(t, ctx, step) && LeaseInsert !in ctx.faults && newId !in t.leases
    case RejectRenewalOffer(org, id, offer) => TenantOffer(t, ctx, org, id, offer).Ok? && OfferWrite !in ctx.faults
    case CloseoutLease(org, id, _) =>
      && LeaseLoads(t, ctx, org, id) && ctx.unitOk
      && CloseoutWrite !in ctx.faults && id !in t.closeouts && LeaseUpdate !in ctx.faults
  }

  // The role gate is open and the lease is found in the organization.
  predicate LeaseLoads(t: Tables, ctx: Context, org: Id, id: Id) {
    ctx.roleOk && Load !in ctx.faults && FindLease(t, org, id).Some?
  }

  predicate PatchChecked(t: Tables, ctx: Context, org: Id, id: Id, req: PatchRequest) {
    && LeaseLoads(t, ctx, org, id) && ctx.unitOk && StatusAccepted(req)
    && var next := PatchedRow(t.leases[id], req, ctx.user);
       WellOrdered(next.range) && !OverlapFound(t, org, Some(id), next)
  }

  // The offer starts after the lease it renews, but by no more than the second the lease is cut short.
  predicate Hasty(l: Lease, offer: Offer) {
    l.range.start < offer.range.start <= l.range.start + Calendar.SECOND
  }

  // The acceptance retires the old lease: CHECK refuses to cut it to nothing.
  predicate Retires(enforced: bool, ctx: Context, l: Lease, offer: Offer) {
    LeaseUpdate !in ctx.faults && (enforced ==> !Hasty(l, offer))
  }

  // The live lease the request would leave meets no other live lease of its unit. Everything here
  // can be looked up before the request. A created lease is stored as primary whatever was asked.
  predicate ClashFree(enforced: bool, t: Tables, ctx: Context, step: Step)
    requires GoesThrough(t, ctx, step)
  {
    match step
    case Create(_, req, _) => ParseLeaseStatus(req.status) == Some(Active) ==> !MeetsOther(t.leases, req.unit, req.range, None)
    case Patch(_, id, req) =>
      var next := PatchedRow(t.leases[id], req, ctx.user);
      IsLive(next) ==> !MeetsOther(t.leases, next.unit, next.range, Some(id))
    case Approve(_, id) =>
      var l := t.leases[id];
      l.isPrimary ==> !MeetsOther(t.leases, l.unit, l.range, Some(id))
    case AcceptRenewalOffer(_, id, offerId, _) =>
      var (l, offer) := (t.leases[id], t.offers[offerId]);
      !MeetsOther(t.leases, l.unit, offer.range, if Retires(enforced, ctx, l, offer) then Some(id) else None)
    case _ => true
  }

  // What decides whether disjointness survives a request without the constraints.
  predicate Safe(t: Tables, ctx: Context, step: Step) {
    GoesThrough(t, ctx, step) ==> ClashFree(false, t, ctx, step)
  }

  // What EXCLUDE and CHECK ask of a request that goes through.
  predicate Permitted(t: Tables, ctx: Context, step: Step)
    requires GoesThrough(t, ctx, step)
  {
    && ClashFree(true, t, ctx, step)
    && (step.AcceptRenewalOffer? ==> WellOrdered(t.offers[step.offer].range))
    && (step.CloseoutLease? ==> t.leases[step.id].range.start < step.closeout.moveOut)
  }

  // The request goes through and the store takes its row.
  predicate Takes(enforced: bool, t: Tables, ctx: Context, step: Step) {
    GoesThrough(t, ctx, step) && (enforced ==> Permitted(t, ctx, step))
  }

  lemma EndedNeverClashes(leases: map<Id, Lease>, id: Id, l: Lease)
    requires l.status != Active
    ensures !Clashes(leases, id, l)
  {
  }

  // ---- what a request makes of the lease rows, in terms of the tables before it ----

  predicate WritesOneLease(step: Step) {
    step.Create? || step.Patch? || step.End? || step.Approve? || step.Reject? || step.CloseoutLease?
  }

  // A patch that passes its checks and names nothing succeeds without a write.
  predicate NothingToWrite(t: Tables, ctx: Context, step: Step) {
    step.Patch? && PatchChecked(t, ctx, step.org, step.id, step.patch) && PatchIsEmpty(step.patch) && ctx.user == ""
  }

  // The row that goes through meets another live lease exactly when the tables before say so.
  lemma ClashFreeExact(enforced: bool, t: Tables, ctx: Context, step: Step)
    requires WritesOneLease(step) && GoesThrough(t, ctx, step)
    ensures Written(t, ctx, step).Some?
    ensures var (id, l) := Written(t, ctx, step).value; Clashes(t.leases, id, l) <==> !ClashFree(enforced, t, ctx, step)
  {
    hide Meets, OverlapFound, StatusAccepted, ParseLeaseStatus, PatchIsEmpty, Text.TrimSpace, Text.Upper, Text.Lower;
    var (id, l) := Written(t, ctx, step).value;
    assert Clashes(t.leases, id, l) <==> (IsLive(l) && MeetsOther(t.leases, l.unit, l.range, Some(id)));
  }

  // The row that goes through is taken by the constraints exactly when they permit the request.
  lemma StorableIffPermitted(t: Tables, ctx: Context, step: Step)
    requires WritesOneLease(step) && GoesThrough(t, ctx, step) && Lawful(t.leases)
    ensures Written(t, ctx, step).Some?
    ensures var (id, l) := Written(t, ctx, step).value; Storable(true, t.leases, id, l) <==> Permitted(t, ctx, step)
  {
    hide OverlapFound, StatusAccepted, ParseLeaseStatus, Disjoint, PatchIsEmpty, Clashes, ClashFree,
         Text.TrimSpace, Text.Upper, Text.Lower;
    ClashFreeExact(true, t, ctx, step);
  }

  // The row that goes through, with whether the store takes it, fixes the leases and the reply.
  ghost predicate RowOutcome(enforced: bool, t: Tables, ctx: Context, step: Step) {
    var (after, reply) := Next(enforced, t, ctx, step);
    if GoesThrough(t, ctx, step) then
      && Written(t, ctx, step).Some?
      && var (id, l) := Written(t, ctx, step).value;
         if Storable(enforced, t.leases, id, l) then
           after.leases == t.leases[id := Stamped(l, ctx.now)] && (reply == Done <==> Sync !in ctx.faults)
         else after.leases == t.leases && reply != Done
    else after.leases == t.leases && (reply == Done <==> NothingToWrite(t, ctx, step))
  }

  lemma CreateOutcome(enforced: bool, t: Tables, ctx: Context, step: Step)
    requires step.Create?
    ensures RowOutcome(enforced, t, ctx, step)
  {
    hide Storable, OverlapFound, WellOrdered, Settle, NewLease;
    var row := AsInserted(NewLease(step.org, step.create, ctx.user));
    SettleReply(WithLease(t, ctx, step.newId, row), ctx, step.org, step.create.unit);
    assert NewLease(step.org, step.create, ctx.user).unit == step.create.unit by { NewLeaseUnit(step.org, step.create, ctx.user); }
  }

  lemma NewLeaseUnit(org: Id, req: CreateRequest, user: Id)
    ensures NewLease(org, req, user).unit == req.unit && NewLease(org, req, user).org == org
  {
  }

  lemma CommitOutcome(enforced: bool, t: Tables, ctx: Context, id: Id, l: Lease)
    ensures var (after, reply) := Commit(enforced, t, ctx, id, l);
            if UpdateOk(enforced, t, ctx, id, l)
            then after.leases == t.leases[id := Stamped(l, ctx.now)] && (reply == Done <==> Sync !in ctx.faults)
            else after.leases == t.leases && reply != Done
  {
    hide UpdateOk, Settle;
    SettleReply(WithLease(t, ctx, id, l), ctx, l.org, l.unit);
  }

  lemma PatchOutcome(enforced: bool, t: Tables, ctx: Context, step: Step)
    requires step.Patch?
    ensures RowOutcome(enforced, t, ctx, step)
  {
    hide Storable, OverlapFound, WellOrdered, Commit, PatchedRow, StatusAccepted, PatchIsEmpty;
    if step.id in t.leases {
      CommitOutcome(enforced, t, ctx, step.id, PatchedRow(t.leases[step.id], step.patch, ctx.user));
    }
  }

  lemma DecisionOutcome(enforced: bool, t: Tables, ctx: Context, step: Step)
    requires step.End? || step.Approve? || step.Reject?
    ensures RowOutcome(enforced, t, ctx, step)
  {
    hide Storable, Commit;
    if step.id in t.leases {
      CommitOutcome(enforced, t, ctx, step.id, Written(t, ctx, step).value.1);
    }
  }

  lemma CloseoutOutcome(enforced: bool, t: Tables, ctx: Context, step: Step)
    requires step.CloseoutLease?
    ensures RowOutcome(enforced, t, ctx, step)
  {
    hide Storable, Commit, CurrencyFor;
    if step.id in t.leases {
      var l := t.leases[step.id];
      CommitOutcome(enforced, WithCloseout(t, step.org, step.id, l, step.closeout), ctx, step.id, Written(t, ctx, step).value.1);
    }
  }

  lemma RowOutcomeHolds(enforced: bool, t: Tables, ctx: Context, step: Step)
    requires WritesOneLease(step)
    ensures RowOutcome(enforced, t, ctx, step)
  {
    hide RowOutcome;
    match step
    case Create(_, _, _) => CreateOutcome(enforced, t, ctx, step);
    case Patch(_, _, _) => PatchOutcome(enforced, t, ctx, step);
    case CloseoutLease(_, _, _) => CloseoutOutcome(enforced, t, ctx, step);
    case _ => DecisionOutcome(enforced, t, ctx, step);
  }

  // Requests other than an acceptance write their row exactly when they are taken, and succeed
  // exactly when the unit's status can be rederived as well.
  lemma OneRowExact(enforced: bool, t: Tables, ctx: Context, step: Step)
    requires WritesOneLease(step) && (enforced ==> Lawful(t.leases))
    ensures Takes(enforced, t, ctx, step) ==> Written(t, ctx, step).Some?
    ensures var (after, reply) := Next(enforced, t, ctx, step);
            && after.leases == (if Takes(enforced, t, ctx, step)
                                then t.leases[Written(t, ctx, step).value.0 := Stamped(Written(t, ctx, step).value.1, ctx.now)]
                                else t.leases)
            && (reply == Done <==> NothingToWrite(t, ctx, step) || (Takes(enforced, t, ctx, step) && Sync !in ctx.faults))
  {
    hide Next, Permitted, Lawful, Written, Stamped;
    RowOutcomeHolds(enforced, t, ctx, step);
    if GoesThrough(t, ctx, step) {
      if enforced {
        StorableIffPermitted(t, ctx, step);
      }
      assert !NothingToWrite(t, ctx, step);
    }
    hide GoesThrough, NothingToWrite, Clashes, WellOrdered;
  }

  lemma AcceptanceSubjects(t: Tables, ctx: Context, step: Step)
    requires IsAccept(step) && TenantOffer(t, ctx, step.org, step.id, step.offer).Ok?
    ensures step.id in t.leases && step.offer in t.offers
    ensures FindLease(t, step.org, step.id) == Some(t.leases[step.id])
    ensures TenantOffer(t, ctx, step.org, step.id, step.offer).value == t.offers[step.offer]
    ensures t.leases[step.id].org == step.org && t.offers[step.offer].org == step.org
  {
  }

  // The leases between the two lease writes of an acceptance.
  function MidLeases(enforced: bool, leases: map<Id, Lease>, ctx: Context, id: Id, offer: Offer): map<Id, Lease>
    requires id in leases
  {
    var l := leases[id];
    if Retires(enforced, ctx, l, offer) then leases[id := Stamped(RetiredLease(l, offer, ctx.user), ctx.now)] else leases
  }

  lemma RetiringExact(enforced: bool, t: Tables, ctx: Context, id: Id, offer: Offer)
    requires id in t.leases && (enforced ==> Lawful(t.leases))
    ensures AfterRetiring(enforced, t, ctx, id, t.leases[id], offer) == t.(leases := MidLeases(enforced, t.leases, ctx, id, offer))
  {
    hide Disjoint, Clashes;
    EndedNeverClashes(t.leases, id, RetiredLease(t.leases[id], offer, ctx.user));
  }

  // The new lease of an acceptance meets a live lease exactly when the offered range met one before,
  // other than the lease that the acceptance retires.
  lemma AcceptanceClashes(enforced: bool, leases: map<Id, Lease>, ctx: Context, id: Id, offer: Offer, newId: Id)
    requires id in leases && newId !in leases
    ensures var l := leases[id];
            Clashes(MidLeases(enforced, leases, ctx, id, offer), newId, RenewedLease(l, offer, ctx.user))
            <==> MeetsOther(leases, l.unit, offer.range, if Retires(enforced, ctx, l, offer) then Some(id) else None)
  {
    hide Meets, Retires;
    var mid := MidLeases(enforced, leases, ctx, id, offer);
    var exclude := if Retires(enforced, ctx, leases[id], offer) then Some(id) else None;
    assert forall o :: o in mid <==> o in leases;
    assert forall o :: o in leases && Some(o) != exclude ==> mid[o] == leases[o];
    assert exclude.Some? ==> !IsLive(mid[id]);
  }

  lemma MidKeepsDisjoint(enforced: bool, leases: map<Id, Lease>, ctx: Context, id: Id, offer: Offer)
    requires id in leases && Disjoint(leases)
    ensures Disjoint(MidLeases(enforced, leases, ctx, id, offer))
  {
    hide Disjoint, Clashes, Retires;
    var retired := RetiredLease(leases[id], offer, ctx.user);
    EndedNeverClashes(leases, id, retired);
    StampedStore(leases, id, retired, ctx.now);
  }

  // An acceptance that spends its offer retires the old lease and adds the new one, each exactly
  // when the tables before it say so.
  lemma AcceptanceExact(enforced: bool, t: Tables, ctx: Context, step: Step)
    requires Acceptable(t, ctx, step) && (enforced ==> Lawful(t.leases))
    ensures step.id in t.leases && step.offer in t.offers
    ensures var (after, reply) := Next(enforced, t, ctx, step);
            var (l, offer) := (t.leases[step.id], t.offers[step.offer]);
            var mid := MidLeases(enforced, t.leases, ctx, step.id, offer);
            && after.leases == (if Takes(enforced, t, ctx, step)
                                then mid[step.newId := Stamped(RenewedLease(l, offer, ctx.user), ctx.now)] else mid)
            && after.offers == t.offers[step.offer := offer.(status := Accepted)]
            && (reply == Done <==> Takes(enforced, t, ctx, step) && Sync !in ctx.faults)
  {
    hide Lawful, MeetsOther, Clashes, Settle, RenewedLease, RetiredLease, TenantOffer, AfterRetiring, Retires, HasActive;
    AcceptanceSubjects(t, ctx, step);
    var l, offer := t.leases[step.id], t.offers[step.offer];
    var started := WithOfferStatus(t, step.offer, Accepted);
    RetiringExact(enforced, started, ctx, step.id, offer);
    var mid := AfterRetiring(enforced, started, ctx, step.id, l, offer);
    var renewed := RenewedLease(l, offer, ctx.user);
    assert renewed.range == offer.range by { RenewedRange(l, offer, ctx.user); }
    if step.newId !in t.leases {
      AcceptanceClashes(enforced, t.leases, ctx, step.id, offer, step.newId);
    }
    assert InsertOk(enforced, mid, ctx, step.newId, renewed) <==> Takes(enforced, t, ctx, step);
    SettleReply(WithLease(mid, ctx, step.newId, renewed), ctx, step.org, l.unit);
  }

  lemma RenewedRange(l: Lease, offer: Offer, user: Id)
    ensures RenewedLease(l, offer, user).range == offer.range && IsLive(RenewedLease(l, offer, user))
  {
  }

  lemma SettleReply(t: Tables, ctx: Context, org: Id, unit: Id)
    ensures var (after, reply) := Settle(t, ctx, org, unit);
            after == t.(units := after.units) && (reply == Done <==> Sync !in ctx.faults)
  {
    hide HasActive;
  }

  lemma UncheckedAcceptance(t: Tables, ctx: Context, step: Step)
    requires IsAccept(step) && Disjoint(t.leases)
    ensures Disjoint(Next(false, t, ctx, step).0.leases) <==> Safe(t, ctx, step)
  {
    hide Disjoint, Clashes, MeetsOther, MidLeases, RenewedLease, TenantOffer;
    if Acceptable(t, ctx, step) {
      hide Next;
      AcceptanceExact(false, t, ctx, step);
      var offer := t.offers[step.offer];
      var mid := MidLeases(false, t.leases, ctx, step.id, offer);
      MidKeepsDisjoint(false, t.leases, ctx, step.id, offer);
      if GoesThrough(t, ctx, step) {
        StampedStore(mid, step.newId, RenewedLease(t.leases[step.id], offer, ctx.user), ctx.now);
        AcceptanceClashes(false, t.leases, ctx, step.id, offer, step.newId);
      }
    }
  }

  // Without the constraints, one request keeps disjointness if and only if it is safe: an
  // approval or an acceptance exactly when the range it activates meets no other live lease.
  lemma UncheckedStepExact(t: Tables, ctx: Context, step: Step)
    requires Scoped(t) && Disjoint(t.leases)
    ensures Disjoint(Next(false, t, ctx, step).0.leases) <==> Safe(t, ctx, step)
  {
    hide Next, Disjoint, GoesThrough, MidLeases, RenewedLease, NothingToWrite, MeetsOther, Clashes;
    if IsAccept(step) {
      UncheckedAcceptance(t, ctx, step);
    } else if WritesOneLease(step) {
      OneRowExact(false, t, ctx, step);
      if GoesThrough(t, ctx, step) {
        var (id, l) := Written(t, ctx, step).value;
        StampedStore(t.leases, id, l, ctx.now);
        ClashFreeExact(false, t, ctx, step);
      }
    } else {
      OneWrite(false, t, ctx, step);
    }
  }

  // The written row keeps organization, unit and tenant of the row it replaces.
  lemma WrittenUnit(t: Tables, ctx: Context, step: Step)
    requires Written(t, ctx, step).Some?
    ensures var (id, l) := Written(t, ctx, step).value;
            if step.Create? then l.org == step.org && l.unit == step.create.unit
            else id in t.leases && l.org == t.leases[id].org && l.unit == t.leases[id].unit && l.tenant == t.leases[id].tenant
  {
  }

  // ---- which rows a request touches ----

  // The unit a request is about: the one named by a Create, else the one of the lease.
  function SubjectUnit(t: Tables, step: Step): Option<Id> {
    if step.Create? then Some(step.create.unit)
    else if step.id in t.leases then Some(t.leases[step.id].unit)
    else None
  }

  // Lease rows come and change on unit u only; no row disappears or changes its owners.
  ghost predicate OnlyOnUnit(before: map<Id, Lease>, after: map<Id, Lease>, u: Id) {
    && (forall id :: id in before ==>
          && id in after
          && after[id].org == before[id].org && after[id].unit == before[id].unit && after[id].tenant == before[id].tenant
          && (before[id].unit != u ==> after[id] == before[id]))
    && (forall id :: id in after && id !in before ==> after[id].unit == u)
  }

  lemma StoreOnUnit(leases: map<Id, Lease>, id: Id, l: Lease, now: Instant)
    requires id in leases ==> leases[id].org == l.org && leases[id].unit == l.unit && leases[id].tenant == l.tenant
    ensures OnlyOnUnit(leases, leases[id := Stamped(l, now)], l.unit)
  {
  }

  lemma OnlyOnUnitTransitive(a: map<Id, Lease>, b: map<Id, Lease>, c: map<Id, Lease>, u: Id)
    requires OnlyOnUnit(a, b, u) && OnlyOnUnit(b, c, u)
    ensures OnlyOnUnit(a, c, u)
  {
  }

  // No request deletes a lease, moves one to another organization, unit or tenant, or touches
  // a lease of another unit.
  lemma LeasesStayPut(enforced: bool, t: Tables, ctx: Context, step: Step)
    ensures var after := Next(enforced, t, ctx, step).0;
            after.leases == t.leases
            || (SubjectUnit(t, step).Some? && OnlyOnUnit(t.leases, after.leases, SubjectUnit(t, step).value))
  {
    hide Next, OnlyOnUnit, Storable, OverlapFound, NewLease, PatchedRow;
    var after := Next(enforced, t, ctx, step).0;
    if IsAccept(step) {
      AcceptanceWrites(enforced, t, ctx, step);
      if after.leases != t.leases {
        AcceptanceSubjects(t, ctx, step);
        var l, offer := t.leases[step.id], t.offers[step.offer];
        var retired := RetiredLease(l, offer, ctx.user);
        StoreOnUnit(t.leases, step.id, retired, ctx.now);
        var mid := AfterRetiring(enforced, WithOfferStatus(t, step.offer, Accepted), ctx, step.id, l, offer).leases;
        NothingOnUnit(t.leases, l.unit);
        assert OnlyOnUnit(t.leases, mid, l.unit);
        if after.leases != mid {
          StoreOnUnit(mid, step.newId, RenewedLease(l, offer, ctx.user), ctx.now);
          OnlyOnUnitTransitive(t.leases, mid, after.leases, l.unit);
        }
      }
    } else {
      OneWrite(enforced, t, ctx, step);
      if after.leases != t.leases {
        var (id, l) := Written(t, ctx, step).value;
        WrittenUnit(t, ctx, step);
        StoreOnUnit(t.leases, id, l, ctx.now);
      }
    }
  }

  lemma NothingOnUnit(leases: map<Id, Lease>, u: Id)
    ensures OnlyOnUnit(leases, leases, u)
  {
  }

  // The status column of a unit says what its leases say.
  predicate Derived(t: Tables, u: Id)
    requires u in t.units
  {
    t.units[u].status == if HasActive(t.leases, t.units[u].org, u) then Occupied else Vacant
  }

  // A failed request leaves every unit row alone; a successful one leaves every unit row but the
  // subject's alone, and derives that one's status unless it wrote no lease at all.
  ghost predicate UnitsFollow(t: Tables, org: Id, subject: Option<Id>, after: Tables, reply: Reply) {
    && after.units.Keys == t.units.Keys
    && (forall u :: u in t.units ==>
          && after.units[u].org == t.units[u].org
          && (Some(u) != subject || t.units[u].org != org ==> after.units[u] == t.units[u]))
    && (reply != Done ==> after.units == t.units)
    && (reply == Done ==>
          || (after.leases == t.leases && after.units == t.units)
          || (subject.Some? && subject.value in t.units && t.units[subject.value].org == org ==>
                Derived(after, subject.value)))
  }

  lemma SettleUnits(t: Tables, ctx: Context, org: Id, unit: Id)
    ensures var (after, reply) := Settle(t, ctx, org, unit);
            UnitsFollow(t, org, Some(unit), after, reply) && after.leases == t.leases
            && (reply == Done && unit in t.units && t.units[unit].org == org ==> Derived(after, unit))
  {
    hide HasActive;
  }

  lemma CommitUnits(enforced: bool, t: Tables, ctx: Context, id: Id, l: Lease)
    ensures var (after, reply) := Commit(enforced, t, ctx, id, l); UnitsFollow(t, l.org, Some(l.unit), after, reply)
  {
    hide Settle, HasActive, Storable;
    SettleUnits(WithLease(t, ctx, id, l), ctx, l.org, l.unit);
  }

  // Writing a lease row and rederiving its unit leave the other tables alone.
  lemma CommitKeepsOtherTables(enforced: bool, t: Tables, ctx: Context, id: Id, l: Lease)
    ensures var after := Commit(enforced, t, ctx, id, l).0; after == t.(leases := after.leases, units := after.units)
  {
    hide UpdateOk, HasActive;
  }

  lemma SettleKeepsOtherTables(t: Tables, ctx: Context, org: Id, unit: Id)
    ensures var after := Settle(t, ctx, org, unit).0; after == t.(units := after.units)
  {
    hide HasActive;
  }

  // What the request hands to the commit of a lease row, for the requests that end in one.
  lemma CommitsWritten(enforced: bool, t: Tables, ctx: Context, step: Step)
    requires step.Patch? || step.End? || step.Approve? || step.Reject?
    ensures var result := Next(enforced, t, ctx, step);
            result.0 == t
            || (FindLease(t, step.org, step.id).Some? && Written(t, ctx, step).Some?
                && var (id, l) := Written(t, ctx, step).value; id == step.id && result == Commit(enforced, t, ctx, id, l))
  {
    hide Commit, OverlapFound, StatusAccepted, WellOrdered, ParseLeaseStatus, PatchedRow, PatchIsEmpty;
  }

  lemma UnitsStep(enforced: bool, t: Tables, ctx: Context, step: Step)
    ensures var (after, reply) := Next(enforced, t, ctx, step);
            UnitsFollow(t, step.org, SubjectUnit(t, step), after, reply)
  {
    hide Commit, Settle, HasActive, UpdateOk, InsertOk, OverlapFound, StatusAccepted, WellOrdered,
         ParseLeaseStatus, AfterRetiring, Text.TrimSpace, Text.Upper, Text.Lower;
    match step
    case Create(org, req, newId) =>
      var l := AsInserted(NewLease(org, req, ctx.user));
      SettleUnits(WithLease(t, ctx, newId, l), ctx, org, l.unit);
    case AcceptRenewalOffer(_, _, _, _) => AcceptedUnits(enforced, t, ctx, step);
    case CreateRenewalOffer(_, _, _, _) =>
    case RejectRenewalOffer(_, _, _) =>
    case _ => CommittedUnits(enforced, t, ctx, step);
  }

  lemma AcceptedUnits(enforced: bool, t: Tables, ctx: Context, step: Step)
    requires IsAccept(step)
    ensures var (after, reply) := Next(enforced, t, ctx, step);
            UnitsFollow(t, step.org, SubjectUnit(t, step), after, reply)
  {
    hide Settle, HasActive, UpdateOk, InsertOk, AfterRetiring, RenewedLease;
    if TenantOffer(t, ctx, step.org, step.id, step.offer).Ok? {
      AcceptanceSubjects(t, ctx, step);
      hide TenantOffer;
      var l, offer := t.leases[step.id], t.offers[step.offer];
      var started := WithOfferStatus(t, step.offer, Accepted);
      var mid := AfterRetiring(enforced, started, ctx, step.id, l, offer);
      RetiringTouchesLeasesOnly(enforced, started, ctx, step.id, l, offer);
      SettleUnits(WithLease(mid, ctx, step.newId, RenewedLease(l, offer, ctx.user)), ctx, step.org, l.unit);
    }
  }

  lemma RetiringTouchesLeasesOnly(enforced: bool, t: Tables, ctx: Context, id: Id, l: Lease, offer: Offer)
    ensures var after := AfterRetiring(enforced, t, ctx, id, l, offer); after == t.(leases := after.leases)
  {
  }

  lemma CommittedUnits(enforced: bool, t: Tables, ctx: Context, step: Step)
    requires step.Patch? || step.End? || step.Approve? || step.Reject? || step.CloseoutLease?
    ensures var (after, reply) := Next(enforced, t, ctx, step);
            UnitsFollow(t, step.org, SubjectUnit(t, step), after, reply)
  {
    if step.CloseoutLease? {
      hide Commit, CurrencyFor, HasActive;
      if FindLease(t, step.org, step.id).Some? {
        var (id, l) := Written(t, ctx, step).value;
        CommitUnits(enforced, WithCloseout(t, step.org, id, t.leases[id], step.closeout), ctx, id, l);
      }
    } else {
      hide Next, Commit, HasActive;
      CommitsWritten(enforced, t, ctx, step);
      if FindLease(t, step.org, step.id).Some? {
        var (id, l) := Written(t, ctx, step).value;
        WrittenUnit(t, ctx, step);
        CommitUnits(enforced, t, ctx, id, l);
      }
    }
  }

  // Organization and unit of every lease stay matched, in every run.
  lemma ScopedStep(enforced: bool, t: Tables, ctx: Context, step: Step)
    requires Scoped(t)
    ensures Scoped(Next(enforced, t, ctx, step).0)
  {
    hide Next, Written, WroteAcceptance, HasActive;
    var after := Next(enforced, t, ctx, step).0;
    UnitsStep(enforced, t, ctx, step);
    LeasesStayPut(enforced, t, ctx, step);
    if after.leases != t.leases {
      forall id | id in after.leases && id !in t.leases
        ensures after.leases[id].unit in t.units && t.units[after.leases[id].unit].org == after.leases[id].org
      {
        NewRowScoped(enforced, t, ctx, step, id);
      }
    }
  }

  lemma NewRowScoped(enforced: bool, t: Tables, ctx: Context, step: Step, id: Id)
    requires Scoped(t)
    requires id !in t.leases && id in Next(enforced, t, ctx, step).0.leases
    ensures var l := Next(enforced, t, ctx, step).0.leases[id]; l.unit in t.units && t.units[l.unit].org == l.org
  {
    hide Next, OverlapFound, Storable, NewLease, PatchedRow;
    if IsAccept(step) {
      AcceptanceWrites(enforced, t, ctx, step);
      AcceptanceSubjects(t, ctx, step);
    } else {
      OneWrite(enforced, t, ctx, step);
      WrittenUnit(t, ctx, step);
    }
  }

  // ---- without the constraints, over runs ----

  ghost predicate AlwaysDisjoint(t: Tables, events: seq<Event>)
    decreases |events|
  {
    hide Next;
    Disjoint(t.leases) && (events != [] ==> AlwaysDisjoint(Next(false, t, events[0].ctx, events[0].step).0, events[1..]))
  }

  predicate AllSafe(t: Tables, events: seq<Event>)
    decreases |events|
  {
    hide Next;
    events != [] ==>
      Safe(t, events[0].ctx, events[0].step) && AllSafe(Next(false, t, events[0].ctx, events[0].step).0, events[1..])
  }

  // Main result without the constraints: a run is disjoint all the way exactly when each of its
  // requests is safe at its time.
  lemma {:induction false} UncheckedRunExact(t: Tables, events: seq<Event>)
    requires Scoped(t) && Disjoint(t.leases)
    ensures AlwaysDisjoint(t, events) <==> AllSafe(t, events)
    decreases |events|
  {
    hide Next, Disjoint, Scoped, Safe;
    if events != [] {
      var next := Next(false, t, events[0].ctx, events[0].step).0;
      UncheckedStepExact(t, events[0].ctx, events[0].step);
      ScopedStep(false, t, events[0].ctx, events[0].step);
      if Disjoint(next.leases) {
        UncheckedRunExact(next, events[1..]);
      }
    }
  }

  // A Create that asks for an active secondary lease skips the overlap check, and is stored as primary.
  predicate SkipsCheck(t: Tables, ctx: Context, step: Step) {
    && step.Create? && GoesThrough(t, ctx, step)
    && step.create.isPrimary == Some(false) && ParseLeaseStatus(step.create.status) == Some(Active)
    && MeetsOther(t.leases, step.create.unit, step.create.range, None)
  }

  // A Create or Patch whose row passes the check and clashes past the sentinel all the same.
  predicate ClashesUnseen(t: Tables, ctx: Context, step: Step) {
    && (step.Create? || step.Patch?) && GoesThrough(t, ctx, step) && Written(t, ctx, step).Some?
    && BlindClash(t.leases, Written(t, ctx, step).value.0, Written(t, ctx, step).value.1)
  }

  // All starts lie before the year 10000.
  predicate BeforeSentinel(t: Tables, step: Step) {
    && (forall id :: id in t.leases ==> t.leases[id].range.start < FAR_FUTURE)
    && (step.Create? ==> step.create.range.start < FAR_FUTURE)
    && (step.Patch? && step.patch.start.Some? ==> step.patch.start.value < FAR_FUTURE)
  }

  // A request other than an approval or an acceptance is safe exactly unless it is a Create that
  // skips the check on an occupied range, or its row clashes past the sentinel; and no row does
  // that while all starts lie before the year 10000.
  lemma CheckedRequestsExact(t: Tables, ctx: Context, step: Step)
    requires Scoped(t) && !step.Approve? && !step.AcceptRenewalOffer?
    ensures Safe(t, ctx, step) <==> !SkipsCheck(t, ctx, step) && !ClashesUnseen(t, ctx, step)
    ensures BeforeSentinel(t, step) ==> !ClashesUnseen(t, ctx, step)
  {
    hide ParseLeaseStatus, StatusAccepted, PatchIsEmpty, Text.TrimSpace, Text.Upper, Text.Lower, Meets, RangesOverlap, HasActive;
    if (step.Create? || step.Patch?) && GoesThrough(t, ctx, step) {
      ClashFreeExact(false, t, ctx, step);
      var (id, l) := Written(t, ctx, step).value;
      if step.Patch? {
        CheckLeavesBlindClashes(t, Some(id), id, l);
      } else if step.create.isPrimary != Some(false) {
        assert !OverlapFound(t, step.org, None, l);
        CheckLeavesBlindClashes(t, None, id, l);
      }
    }
  }

  // ---- the occupancy column ----

  // A unit is marked occupied exactly when an active lease, primary or not, is on it.
  ghost predicate Agrees(t: Tables) {
    forall u :: u in t.units ==>
      (t.units[u].status == Occupied <==> exists id :: id in t.leases && t.leases[id].unit == u && t.leases[id].status == Active)
  }

  lemma AgreesOnUnit(t: Tables, u: Id)
    requires Scoped(t) && u in t.units
    ensures HasActive(t.leases, t.units[u].org, u)
            <==> exists id :: id in t.leases && t.leases[id].unit == u && t.leases[id].status == Active
  {
    if id :| id in t.leases && t.leases[id].unit == u && t.leases[id].status == Active {
      assert t.leases[id].org == t.units[u].org;
    }
  }

  lemma SuccessAgrees(enforced: bool, t: Tables, ctx: Context, step: Step)
    requires Scoped(t) && Agrees(t)
    requires Next(enforced, t, ctx, step).1 == Done
    ensures Agrees(Next(enforced, t, ctx, step).0)
  {
    hide Next, Scoped;
    var after := Next(enforced, t, ctx, step).0;
    UnitsStep(enforced, t, ctx, step);
    LeasesStayPut(enforced, t, ctx, step);
    ScopedStep(enforced, t, ctx, step);
    forall u | u in after.units
      ensures after.units[u].status == Occupied
              <==> exists id :: id in after.leases && after.leases[id].unit == u && after.leases[id].status == Active
    {
      AgreesOnUnit(after, u);
      if after.leases != t.leases {
        SubjectScoped(enforced, t, ctx, step);
        if Some(u) != SubjectUnit(t, step) {
          OtherUnitUnmoved(t.leases, after.leases, SubjectUnit(t, step).value, u);
        }
      }
    }
  }

  lemma OtherUnitUnmoved(before: map<Id, Lease>, after: map<Id, Lease>, u: Id, other: Id)
    requires OnlyOnUnit(before, after, u) && other != u
    ensures (exists id :: id in before && before[id].unit == other && before[id].status == Active)
            <==> (exists id :: id in after && after[id].unit == other && after[id].status == Active)
  {
  }

  // A request that wrote a lease worked in the organization of the unit.
  lemma SubjectScoped(enforced: bool, t: Tables, ctx: Context, step: Step)
    requires Scoped(t) && Next(enforced, t, ctx, step).0.leases != t.leases
    ensures var u := SubjectUnit(t, step); u.Some? && u.value in t.units && t.units[u.value].org == step.org
  {
    hide Next, OverlapFound, Storable, NewLease, PatchedRow, AfterRetiring;
    if IsAccept(step) {
      AcceptanceWrites(enforced, t, ctx, step);
      AcceptanceSubjects(t, ctx, step);
    } else {
      OneWrite(enforced, t, ctx, step);
      WrittenUnit(t, ctx, step);
    }
  }

  // Main result on occupancy: over every run whose requests all return success, the column
  // agrees with the leases throughout, with or without the constraints.
  lemma {:induction false} OccupancyRun(enforced: bool, t: Tables, events: seq<Event>)
    requires Scoped(t) && Agrees(t) && AllDone(enforced, t, events)
    ensures Scoped(Run(enforced, t, events)) && Agrees(Run(enforced, t, events))
    decreases |events|
  {
    hide Next, Scoped, Agrees;
    if events != [] {
      var (ctx, step) := (events[0].ctx, events[0].step);
      SuccessAgrees(enforced, t, ctx, step);
      ScopedStep(enforced, t, ctx, step);
      OccupancyRun(enforced, Next(enforced, t, ctx, step).0, events[1..]);
    }
  }
}
