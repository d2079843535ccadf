/** Concrete requests that show where the lifecycle's promises stop. */
module LeaseWitnesses {
  import opened Common
  import opened LeaseRanges
  import opened LeaseModel
  import opened LeaseSteps
  import opened LeaseTheorems
  import opened LeaseReplies
  import opened RenewalTheorems
  import Text

  function PlainLease(range: Range, status: LeaseStatus): Lease {
    Lease("org", "unit", "tenant", range, 100, None, "USD", None, None, "", status, true, 0, None)
  }

  function TenantContext(): Context {
    Context(1000, "user", true, true, "tenant", {})
  }

  function OneUnit(leases: map<Id, Lease>, offers: map<Id, Offer>, status: UnitStatus): Tables {
    Tables(leases, offers, map[], map["unit" := Unit("org", status)], map["tenant" := "org"])
  }

  // One lease on the one unit, whose column is right.
  function LoneTables(range: Range, status: LeaseStatus, offers: map<Id, Offer>): Tables {
    OneUnit(map["a" := PlainLease(range, status)], offers, if status == Active then Occupied else Vacant)
  }

  lemma LoneTablesAreSound(range: Range, status: LeaseStatus, offers: map<Id, Offer>)
    requires WellOrdered(range)
    ensures var t := LoneTables(range, status, offers);
            Scoped(t) && Lawful(t.leases) && Agrees(t) && "a" in t.leases && t.leases["a"] == PlainLease(range, status)
  {
    var t := LoneTables(range, status, offers);
    assert t.leases["a"].unit == "unit" && t.leases["a"].status == status;
  }

  function ActiveRequest(range: Range, isPrimary: Option<bool>): CreateRequest {
    CreateRequest("tenant", "unit", range, 100, None, "", "active", isPrimary, None, None, "")
  }

  lemma ActiveRequestBuilds(range: Range, isPrimary: Option<bool>)
    ensures ParseLeaseStatus("active") == Some(Active)
    ensures var l := NewLease("org", ActiveRequest(range, isPrimary), "user");
            l.org == "org" && l.unit == "unit" && l.range == range && l.status == Active && l.isPrimary == GetOr(isPrimary, true)
  {
    ActiveParses();
    hide ParseLeaseStatus, Text.TrimSpace, Text.Upper, Text.Lower;
  }

  lemma ActiveParses()
    ensures ParseLeaseStatus("active") == Some(Active)
  {
    assert Text.Lower("active") == "active";
    Text.TrimSpaceFixed("active");
  }

  // Without the constraints, a tenant's approval of a pending lease puts a second live lease on
  // an occupied unit, and reports success.
  lemma ApprovalCanOverlap() returns (t: Tables, step: Step)
    ensures Scoped(t) && Disjoint(t.leases) && Agrees(t)
    ensures var (after, reply) := Next(false, t, TenantContext(), step);
            reply == Done && !Disjoint(after.leases) && !Safe(t, TenantContext(), step)
  {
    var range := Range(0, None);
    t := OneUnit(map["a" := PlainLease(range, Active), "b" := PlainLease(range, PendingApproval)], map[], Occupied);
    step := Approve("org", "b");
    assert t.leases["a"].unit == "unit" && t.leases["a"].status == Active;
    assert !Safe(t, TenantContext(), step);
    hide Next, Disjoint, Safe, HasActive;
    UncheckedStepExact(t, TenantContext(), step);
    RepliesExact(false, t, TenantContext(), step);
  }

  // So does a Create that asks for an active secondary lease: the check is skipped for the flag that
  // was asked, and the row is stored with the column's default. With the constraints it is refused.
  lemma SecondaryCreateCanOverlap() returns (t: Tables, step: Step)
    ensures Scoped(t) && Lawful(t.leases) && Agrees(t) && step.Create? && step.create.isPrimary == Some(false)
    ensures var (after, reply) := Next(false, t, TenantContext(), step); reply == Done && !Disjoint(after.leases)
    ensures Next(true, t, TenantContext(), step) == (t, Failed(Internal))
  {
    var range := Range(0, None);
    t := LoneTables(range, Active, map[]);
    step := Create("org", ActiveRequest(range, Some(false)), "b");
    LoneTablesAreSound(range, Active, map[]);
    ActiveRequestBuilds(range, Some(false));
    hide Next, NewLease, ParseLeaseStatus, HasActive, Scoped, Lawful, Agrees, Disjoint;
    assert MeetsOther(t.leases, "unit", range, None) by { assert IsLive(t.leases["a"]); }
    SkippedCheckOutcome(t, TenantContext(), step);
  }

  // An acceptance can leave a unit marked occupied with no active lease on it, with the constraints
  // in place and no database failure at all: nothing checks an offer's dates, and CHECK refuses the
  // lease of an offer whose end is not after its start once the old lease was retired. The offer is lost.
  lemma AcceptanceCanStrandUnit() returns (t: Tables, step: Step)
    ensures Scoped(t) && Lawful(t.leases) && Agrees(t)
    ensures var (after, reply) := Next(true, t, TenantContext(), step);
            reply != Done && !Agrees(after) && TenantContext().faults == {}
    ensures Acceptable(t, TenantContext(), step)
    ensures Renewals(true, t, [Event(TenantContext(), step)], step.offer) == 0
  {
    hide Next, HasActive;
    hide Scoped, Lawful, Agrees;
    var offer := Offer("org", "a", Range(5_000_000_000, Some(5_000_000_000)), 100, "USD", Offered);
    t := LoneTables(Range(0, None), Active, map["offer" := offer]);
    step := AcceptRenewalOffer("org", "a", "offer", "b");
    LoneTablesAreSound(Range(0, None), Active, map["offer" := offer]);
    ColumnExact(true, t, TenantContext(), step);
    AcceptanceSettlesOffer(true, t, Event(TenantContext(), step), []);
    assert [Event(TenantContext(), step)] + [] == [Event(TenantContext(), step)];
  }

  // Two unbounded leases, one from the far future on, pass the check and overlap: the
  // service's stand-in for "no end" hides it.
  lemma FarFutureCreateCanOverlap() returns (t: Tables, step: Step)
    ensures Scoped(t) && Lawful(t.leases) && step.Create? && step.create.isPrimary == None
    ensures ClashesUnseen(t, TenantContext(), step)
    ensures var (after, reply) := Next(false, t, TenantContext(), step); reply == Done && !Disjoint(after.leases)
  {
    var range, later := Range(0, None), Range(FAR_FUTURE, None);
    t := LoneTables(range, Active, map[]);
    step := Create("org", ActiveRequest(later, None), "b");
    var ctx := TenantContext();
    LoneTablesAreSound(range, Active, map[]);
    hide Next, NewLease, ParseLeaseStatus, FAR_FUTURE, HasActive, Scoped, Lawful, Disjoint, Agrees;
    assert GoesThrough(t, ctx, step) && ClashesUnseen(t, ctx, step) by { FarFuturePasses(); }
    hide GoesThrough, ClashesUnseen, LoneTables, ActiveRequest;
    LawfulIsDisjoint(t.leases);
    CheckedRequestsExact(t, ctx, step);
    UncheckedStepExact(t, ctx, step);
    RepliesExact(false, t, ctx, step);
  }

  lemma FarFuturePasses()
    ensures var t := LoneTables(Range(0, None), Active, map[]);
            var step := Create("org", ActiveRequest(Range(FAR_FUTURE, None), None), "b");
            GoesThrough(t, TenantContext(), step) && ClashesUnseen(t, TenantContext(), step)
  {
    var t := LoneTables(Range(0, None), Active, map[]);
    var later := Range(FAR_FUTURE, None);
    ActiveRequestBuilds(later, None);
    FarFutureIsLate();
    hide NewLease, ParseLeaseStatus, FAR_FUTURE;
    assert Meets(later, t.leases["a"].range) && IsLive(t.leases["a"]);
  }

  lemma LawfulIsDisjoint(leases: map<Id, Lease>)
    requires Lawful(leases)
    ensures Disjoint(leases)
  {
  }

  lemma FarFutureIsLate()
    ensures FAR_FUTURE > 0
  {
  }

  // A closeout dated at the lease's start fails with the constraints and no database failure, and the
  // same request with a later date fails ever after.
  lemma BackdatedCloseoutJams() returns (t: Tables, step: Step, retry: Step)
    ensures Lawful(t.leases) && step.CloseoutLease? && retry.CloseoutLease? && retry.id == step.id && step.id in t.leases
    ensures retry.closeout.moveOut > t.leases[step.id].range.start
    ensures var (after, reply) := Next(true, t, TenantContext(), step);
            && reply != Done && after.leases == t.leases && after.leases[step.id].status == Active
            && Next(true, after, TenantContext(), retry).1 != Done
  {
    t := LoneTables(Range(5, None), Active, map[]);
    LoneTablesAreSound(Range(5, None), Active, map[]);
    step := CloseoutLease("org", "a", CloseoutRequest(5, 0, ""));
    retry := CloseoutLease("org", "a", CloseoutRequest(500, 0, ""));
    var ctx := TenantContext();
    assert t.leases["a"].status == Active && t.leases["a"].range.start == 5 && t.leases["a"].org == "org";
    assert ClosesOut(t, ctx, step) && Jams(true, t, ctx, step);
    hide Next, HasActive, Text.TrimSpace, Text.Upper;
    CloseoutExact(true, t, ctx, step, [Event(ctx, retry)]);
    var after := Next(true, t, ctx, step).0;
    assert Closeouts(true, after, [Event(ctx, retry)], "a") == 0;
    CloseoutsStay(true, after, ctx, retry, "a");
  }

  // An ended lease is approved, and its tenant is on the unit again.
  lemma ApprovalRevivesEndedLease() returns (t: Tables, step: Step)
    ensures Scoped(t) && Lawful(t.leases) && Agrees(t) && step.Approve?
    ensures step.id in t.leases && t.leases[step.id].status == LeaseStatus.Ended
    ensures var (after, reply) := Next(true, t, TenantContext(), step);
            reply == Done && step.id in after.leases && after.leases[step.id].status != LeaseStatus.Ended
  {
    var range := Range(0, Some(100));
    t := LoneTables(range, LeaseStatus.Ended, map[]);
    step := Approve("org", "a");
    var ctx := TenantContext();
    LoneTablesAreSound(range, LeaseStatus.Ended, map[]);
    hide Next, HasActive, Scoped, Lawful, Agrees, Meets;
    assert Takes(true, t, ctx, step);
    hide Takes;
    EndedLeavesExactly(true, t, ctx, step, "a");
    RepliesExact(true, t, ctx, step);
  }

  // A tenant rejects the offer whose acceptance put the tenant on the unit, and is told it worked.
  lemma AcceptedOfferCanBeRejected() returns (t: Tables, step: Step)
    ensures step.RejectRenewalOffer? && step.offer in t.offers && t.offers[step.offer].status == Accepted
    ensures var (after, reply) := Next(true, t, TenantContext(), step);
            reply == Done && after.leases == t.leases && step.offer in after.offers && after.offers[step.offer].status == Declined
  {
    var offer := Offer("org", "a", Range(100, None), 100, "USD", Accepted);
    var ended := PlainLease(Range(0, Some(50)), LeaseStatus.Ended);
    t := OneUnit(map["a" := ended, "b" := PlainLease(Range(100, None), Active)], map["offer" := offer], Occupied);
    step := RejectRenewalOffer("org", "a", "offer");
    var ctx := TenantContext();
    assert t.leases["a"] == ended && GoesThrough(t, ctx, step);
    hide Next;
    SpentOfferChanges(true, t, ctx, step, "offer");
  }
}
