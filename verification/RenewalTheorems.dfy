/** Renewal offers and closeouts: what can happen at most once, when an acceptance or a closeout
    succeeds, and what a refused write leaves behind. */
module RenewalTheorems {
  import opened Common
  import opened Calendar
  import opened LeaseRanges
  import opened LeaseModel
  import opened LeaseSteps
  import opened LeaseTheorems
  import Text

  // ---- an offer gives rise to at most one lease ----

  predicate Spent(t: Tables, offer: Id) {
    offer in t.offers && t.offers[offer].status != Offered
  }

  // Only the three offer requests touch offers, and only a closeout touches closeouts.
  lemma OtherTablesKept(enforced: bool, t: Tables, ctx: Context, step: Step)
    requires !step.CreateRenewalOffer? && !step.AcceptRenewalOffer? && !step.RejectRenewalOffer?
    ensures var after := Next(enforced, t, ctx, step).0;
            after.offers == t.offers && (!step.CloseoutLease? ==> after.closeouts == t.closeouts)
  {
    hide Commit, Settle, InsertOk, OverlapFound, NewLease, WellOrdered, Text.TrimSpace, Text.Upper;
    match step
    case Create(org, req, newId) =>
      var l := AsInserted(NewLease(org, req, ctx.user));
      SettleKeepsOtherTables(WithLease(t, ctx, newId, l), ctx, org, l.unit);
    case CloseoutLease(_, _, _) => CloseoutTables(enforced, t, ctx, step);
    case Patch(_, _, _) => CommittedTables(enforced, t, ctx, step);
    case End(_, _, _) => CommittedTables(enforced, t, ctx, step);
    case Approve(_, _) => CommittedTables(enforced, t, ctx, step);
    case Reject(_, _) => CommittedTables(enforced, t, ctx, step);
    case _ =>
  }

  lemma CommittedTables(enforced: bool, t: Tables, ctx: Context, step: Step)
    requires step.Patch? || step.End? || step.Approve? || step.Reject?
    ensures var after := Next(enforced, t, ctx, step).0; after.offers == t.offers && after.closeouts == t.closeouts
  {
    hide Next, Commit;
    CommitsWritten(enforced, t, ctx, step);
    if Written(t, ctx, step).Some? {
      var (id, l) := Written(t, ctx, step).value;
      CommitKeepsOtherTables(enforced, t, ctx, id, l);
    }
  }

  // A closeout either changes nothing, or records the lease's first closeout.
  lemma CloseoutTables(enforced: bool, t: Tables, ctx: Context, step: Step)
    requires step.CloseoutLease?
    ensures var (after, reply) := Next(enforced, t, ctx, step);
            && after.offers == t.offers
            && (if after.closeouts == t.closeouts then reply != Done
                else step.id !in t.closeouts && after.closeouts.Keys == t.closeouts.Keys + {step.id})
  {
    hide Commit, Text.TrimSpace, Text.Upper;
    if FindLease(t, step.org, step.id).Some? {
      var l := t.leases[step.id];
      CommitKeepsOtherTables(enforced, WithCloseout(t, step.org, step.id, l, step.closeout), ctx, step.id, Written(t, ctx, step).value.1);
    }
  }

  // An acceptance that writes anything turns an open offer into an accepted one.
  lemma AcceptanceTables(enforced: bool, t: Tables, ctx: Context, step: Step)
    requires step.AcceptRenewalOffer?
    ensures var after := Next(enforced, t, ctx, step).0;
            && after.closeouts == t.closeouts
            && (after == t
                || (step.offer in t.offers && t.offers[step.offer].status == Offered
                    && after.offers == t.offers[step.offer := t.offers[step.offer].(status := Accepted)]))
  {
    hide Settle, InsertOk, AfterRetiring, RenewedLease;
    if TenantOffer(t, ctx, step.org, step.id, step.offer).Ok? {
      AcceptanceSubjects(t, ctx, step);
      var l, offer := t.leases[step.id], t.offers[step.offer];
      var started := WithOfferStatus(t, step.offer, Accepted);
      var mid := AfterRetiring(enforced, started, ctx, step.id, l, offer);
      RetiringTouchesLeasesOnly(enforced, started, ctx, step.id, l, offer);
      SettleKeepsOtherTables(WithLease(mid, ctx, step.newId, RenewedLease(l, offer, ctx.user)), ctx, step.org, l.unit);
    }
  }

  // No request puts an offer back, and none removes it.
  lemma SpentForGood(enforced: bool, t: Tables, ctx: Context, step: Step, offer: Id)
    requires Spent(t, offer)
    ensures Spent(Next(enforced, t, ctx, step).0, offer)
  {
    match step
    case CreateRenewalOffer(_, _, _, _) =>
    case RejectRenewalOffer(_, _, _) =>
    case AcceptRenewalOffer(_, _, _, _) =>
      hide Next;
      AcceptanceTables(enforced, t, ctx, step);
    case _ =>
      hide Next;
      OtherTablesKept(enforced, t, ctx, step);
  }

  // A decided offer changes its status in one way only: its tenant rejects it after it was accepted.
  // That succeeds, and the lease the acceptance made stands.
  lemma SpentOfferChanges(enforced: bool, t: Tables, ctx: Context, step: Step, offer: Id)
    requires Spent(t, offer)
    ensures var (after, reply) := Next(enforced, t, ctx, step);
            var disowned := step.RejectRenewalOffer? && step.offer == offer && GoesThrough(t, ctx, step);
            && offer in after.offers
            && (after.offers[offer].status != t.offers[offer].status <==> disowned && t.offers[offer].status == Accepted)
            && (disowned ==> reply == Done && after.offers[offer].status == Declined && after.leases == t.leases)
  {
    match step
    case CreateRenewalOffer(_, _, _, _) => hide CurrencyFor;
    case RejectRenewalOffer(_, _, _) =>
    case AcceptRenewalOffer(_, _, _, _) =>
      hide Next;
      AcceptanceTables(enforced, t, ctx, step);
    case _ =>
      hide Next;
      OtherTablesKept(enforced, t, ctx, step);
  }

  predicate AcceptsInto(enforced: bool, t: Tables, event: Event, offer: Id) {
    && event.step.AcceptRenewalOffer? && event.step.offer == offer
    && InsertsLease(enforced, t, event.ctx, event.step)
  }

  // How many leases an offer gave rise to in a run.
  function Renewals(enforced: bool, t: Tables, events: seq<Event>, offer: Id): nat
    decreases |events|
  {
    hide Next;
    if events == [] then 0
    else
      (if AcceptsInto(enforced, t, events[0], offer) then 1 else 0)
      + Renewals(enforced, Next(enforced, t, events[0].ctx, events[0].step).0, events[1..], offer)
  }

  lemma AcceptanceSpends(enforced: bool, t: Tables, event: Event, offer: Id)
    requires AcceptsInto(enforced, t, event, offer)
    ensures offer in t.offers && t.offers[offer].status == Offered
    ensures Spent(Next(enforced, t, event.ctx, event.step).0, offer)
  {
    hide Next;
    AcceptanceTables(enforced, t, event.ctx, event.step);
  }

  // Over every run, with or without the constraints and whatever fails, an offer yields at most
  // one lease, and a decided offer yields none.
  lemma {:induction false} OneLeasePerOffer(enforced: bool, t: Tables, events: seq<Event>, offer: Id)
    ensures Renewals(enforced, t, events, offer) <= if Spent(t, offer) then 0 else 1
    decreases |events|
  {
    hide Next, AcceptsInto;
    if events != [] {
      var next := Next(enforced, t, events[0].ctx, events[0].step).0;
      OneLeasePerOffer(enforced, next, events[1..], offer);
      if Spent(t, offer) {
        SpentForGood(enforced, t, events[0].ctx, events[0].step, offer);
        if AcceptsInto(enforced, t, events[0], offer) {
          AcceptanceSpends(enforced, t, events[0], offer);
        }
      } else if AcceptsInto(enforced, t, events[0], offer) {
        AcceptanceSpends(enforced, t, events[0], offer);
      }
    }
  }

  // ---- what an acceptance does to the two ranges ----

  // A later offer and the retired lease share no instant; the retired lease stays well ordered
  // exactly when the two starts are more than one second apart.
  lemma RetiredLeaseEndsBeforeRenewal(l: Lease, offer: Offer, user: Id)
    ensures var r := RetiredLease(l, offer, user);
            && r == l.(status := LeaseStatus.Ended, updatedBy := Some(user), range := r.range)
            && r.range.start == l.range.start
            && (l.range.start < offer.range.start ==>
                  && r.range.end == Some(offer.range.start - 1_000_000_000)
                  && (forall t :: !(Covers(r.range, t) && Covers(offer.range, t)))
                  && (WellOrdered(r.range) <==> offer.range.start - l.range.start > 1_000_000_000))
            && (l.range.start >= offer.range.start ==> r.range == l.range)
  {
  }

  // Once an acceptance spends its offer, it puts the tenant on the offered range of the same unit
  // exactly when the insert is not failed by the database and, with the constraints, the range is
  // well ordered and meets no live lease of the unit but one the acceptance retires. The old lease
  // is retired unless that update fails or, with the constraints, the offer is hasty.
  lemma AcceptanceOutcome(enforced: bool, t: Tables, ctx: Context, step: Step)
    requires Acceptable(t, ctx, step) && (enforced ==> Lawful(t.leases))
    ensures var (after, reply) := Next(enforced, t, ctx, step);
            var (prior, offer) := (t.leases[step.id], t.offers[step.offer]);
            var retires := LeaseUpdate !in ctx.faults && (enforced ==> !Hasty(prior, offer));
            var adds :=
              && LeaseInsert !in ctx.faults && step.newId !in t.leases
              && (enforced ==> && WellOrdered(offer.range)
                               && !MeetsOther(t.leases, prior.unit, offer.range, if retires then Some(step.id) else None));
            && (reply == Done <==> adds && Sync !in ctx.faults)
            && (InsertsLease(enforced, t, ctx, step) <==> adds)
            && after.offers == t.offers[step.offer := offer.(status := Accepted)]
            && after.leases.Keys == t.leases.Keys + (if adds then {step.newId} else {})
            && (forall o :: o in t.leases && o != step.id ==> after.leases[o] == t.leases[o])
            && after.leases[step.id] == (if retires then Stamped(RetiredLease(prior, offer, ctx.user), ctx.now) else prior)
            && (adds ==>
                  && var renewed := after.leases[step.newId];
                  && IsLive(renewed) && renewed.range == offer.range && renewed.rent == offer.rent && renewed.currency != ""
                  && (offer.currency != "" ==> renewed.currency == offer.currency)
                  && renewed.org == prior.org && renewed.unit == prior.unit && renewed.tenant == prior.tenant)
  {
    hide Next, Lawful, MeetsOther, RetiredLease, TenantOffer;
    AcceptanceSubjects(t, ctx, step);
    AcceptanceExact(enforced, t, ctx, step);
  }

  // So an offer whose acceptance began is worth one lease or none, whatever is tried later: none,
  // and the offer is lost, exactly when this acceptance did not add it.
  lemma AcceptanceSettlesOffer(enforced: bool, t: Tables, event: Event, later: seq<Event>)
    requires Acceptable(t, event.ctx, event.step) && (enforced ==> Lawful(t.leases))
    ensures Renewals(enforced, t, [event] + later, event.step.offer) == if Takes(enforced, t, event.ctx, event.step) then 1 else 0
  {
    hide Next, Takes, Lawful, InsertsLease, TenantOffer;
    var next := Next(enforced, t, event.ctx, event.step).0;
    AcceptanceInserts(enforced, t, event.ctx, event.step);
    OneLeasePerOffer(enforced, next, later, event.step.offer);
    assert ([event] + later)[1..] == later;
  }

  lemma AcceptanceInserts(enforced: bool, t: Tables, ctx: Context, step: Step)
    requires Acceptable(t, ctx, step) && (enforced ==> Lawful(t.leases))
    ensures InsertsLease(enforced, t, ctx, step) <==> Takes(enforced, t, ctx, step)
    ensures Spent(Next(enforced, t, ctx, step).0, step.offer)
  {
    hide Next, Lawful, MeetsOther, RetiredLease, TenantOffer;
    AcceptanceExact(enforced, t, ctx, step);
  }

  // With the constraints, a hasty offer on a range that the live lease covers is always lost so:
  // the retirement breaks CHECK, the old lease stays live, and EXCLUDE refuses the new one.
  lemma HastyRenewalIsRefused(t: Tables, ctx: Context, step: Step)
    requires Acceptable(t, ctx, step) && Lawful(t.leases)
    requires var (l, offer) := (t.leases[step.id], t.offers[step.offer]);
             IsLive(l) && Covers(l.range, offer.range.start) && Hasty(l, offer)
    ensures !Takes(true, t, ctx, step)
    ensures var (after, reply) := Next(true, t, ctx, step); reply != Done && after.leases == t.leases
  {
    hide Next, TenantOffer;
    AcceptanceExact(true, t, ctx, step);
    var l, offer := t.leases[step.id], t.offers[step.offer];
    assert WellOrdered(offer.range) ==> Meets(offer.range, l.range);
  }

  // ---- a lease is closed out at most once ----

  lemma CloseoutsStay(enforced: bool, t: Tables, ctx: Context, step: Step, id: Id)
    requires id in t.closeouts
    ensures id in Next(enforced, t, ctx, step).0.closeouts
    ensures step.CloseoutLease? && step.id == id ==> Next(enforced, t, ctx, step).1 != Done
  {
    match step
    case CreateRenewalOffer(_, _, _, _) =>
    case RejectRenewalOffer(_, _, _) =>
    case AcceptRenewalOffer(_, _, _, _) =>
      hide Next;
      AcceptanceTables(enforced, t, ctx, step);
    case CloseoutLease(_, _, _) =>
      hide Next;
      CloseoutTables(enforced, t, ctx, step);
    case _ =>
      hide Next;
      OtherTablesKept(enforced, t, ctx, step);
  }

  function Closeouts(enforced: bool, t: Tables, events: seq<Event>, id: Id): nat
    decreases |events|
  {
    hide Next;
    if events == [] then 0
    else
      var (next, reply) := Next(enforced, t, events[0].ctx, events[0].step);
      (if events[0].step.CloseoutLease? && events[0].step.id == id && reply == Done then 1 else 0)
      + Closeouts(enforced, next, events[1..], id)
  }

  lemma CloseoutRecorded(enforced: bool, t: Tables, ctx: Context, step: Step)
    requires step.CloseoutLease? && Next(enforced, t, ctx, step).1 == Done
    ensures step.id !in t.closeouts && step.id in Next(enforced, t, ctx, step).0.closeouts
  {
    hide Next;
    CloseoutTables(enforced, t, ctx, step);
  }

  // In every run a lease is closed out successfully at most once, and never once a closeout
  // row for it exists.
  lemma {:induction false} OneCloseoutPerLease(enforced: bool, t: Tables, events: seq<Event>, id: Id)
    ensures Closeouts(enforced, t, events, id) <= if id in t.closeouts then 0 else 1
    decreases |events|
  {
    hide Next;
    if events != [] {
      var (ctx, step) := (events[0].ctx, events[0].step);
      OneCloseoutPerLease(enforced, Next(enforced, t, ctx, step).0, events[1..], id);
      if id in t.closeouts {
        CloseoutsStay(enforced, t, ctx, step, id);
      } else if step.CloseoutLease? && step.id == id && Next(enforced, t, ctx, step).1 == Done {
        CloseoutRecorded(enforced, t, ctx, step);
      }
    }
  }

  // The closeout passes its gates, the lease has no closeout yet, and its row is written.
  predicate ClosesOut(t: Tables, ctx: Context, step: Step) {
    && step.CloseoutLease? && LeaseLoads(t, ctx, step.org, step.id) && ctx.unitOk
    && CloseoutWrite !in ctx.faults && step.id !in t.closeouts
  }

  // The closeout jams: its row stays behind, but the lease is not ended. That is exactly so when
  // the lease's update fails, or CHECK refuses a move-out no later than the start.
  predicate Jams(enforced: bool, t: Tables, ctx: Context, step: Step)
    requires ClosesOut(t, ctx, step)
  {
    LeaseUpdate in ctx.faults || (enforced && step.closeout.moveOut <= t.leases[step.id].range.start)
  }

  // Exactly what a closeout leaves, in both stores and with any failures: its row always, the lease
  // ended at the move-out unless it jams, and no way to close the lease out again.
  lemma CloseoutExact(enforced: bool, t: Tables, ctx: Context, step: Step, later: seq<Event>)
    requires ClosesOut(t, ctx, step)
    ensures var (after, reply) := Next(enforced, t, ctx, step);
            var l := t.leases[step.id];
            var ended := l.(status := LeaseStatus.Ended, updatedBy := Some(ctx.user), updatedAt := ctx.now,
                            range := Range(l.range.start, Some(step.closeout.moveOut)));
            && step.id in after.closeouts && Closeouts(enforced, after, later, step.id) == 0
            && after.closeouts == t.closeouts[step.id := after.closeouts[step.id]]
            && var (row, req) := (after.closeouts[step.id], step.closeout);
            && row.org == step.org && row.moveOut == req.moveOut && row.settlement == req.settlement
            && (Text.TrimSpace(req.currency) != "" ==> row.currency == Text.Upper(Text.TrimSpace(req.currency)))
            && (Text.TrimSpace(req.currency) == "" ==> row.currency == if l.currency == "" then "USD" else l.currency)
            && after.leases == (if Jams(enforced, t, ctx, step) then t.leases else t.leases[step.id := ended])
            && (l.updatedAt != ctx.now ==> (after.leases == t.leases <==> Jams(enforced, t, ctx, step)))
            && (reply == Done <==> !Jams(enforced, t, ctx, step) && Sync !in ctx.faults)
  {
    hide Next, Closeouts, Clashes, CurrencyFor, Text.TrimSpace, Text.Upper;
    var after := Next(enforced, t, ctx, step).0;
    RowOutcomeHolds(enforced, t, ctx, step);
    EndedNeverClashes(t.leases, step.id, Written(t, ctx, step).value.1);
    CloseoutLeavesRow(enforced, t, ctx, step);
    CurrencyGiven(step.closeout.currency, t.leases[step.id]);
    OneCloseoutPerLease(enforced, after, later, step.id);
    assert after.leases == t.leases[step.id := Stamped(Written(t, ctx, step).value.1, ctx.now)] ==>
           after.leases[step.id].updatedAt == ctx.now;
  }

  lemma CurrencyGiven(given: string, l: Lease)
    ensures Text.TrimSpace(given) != "" ==> CurrencyFor(given, l) == Text.Upper(Text.TrimSpace(given))
    ensures Text.TrimSpace(given) == "" ==> CurrencyFor(given, l) == if l.currency == "" then "USD" else l.currency
  {
    hide Text.TrimSpace;
    assert Text.TrimSpace(given) != "" ==> Text.Upper(Text.TrimSpace(given)) != "";
  }

  lemma CloseoutLeavesRow(enforced: bool, t: Tables, ctx: Context, step: Step)
    requires ClosesOut(t, ctx, step)
    ensures var after := Next(enforced, t, ctx, step).0;
            && after.closeouts == t.closeouts[step.id := CloseoutRow(step.org, step.closeout.moveOut, step.closeout.settlement,
                                                                    CurrencyFor(step.closeout.currency, t.leases[step.id]))]
  {
    hide Commit, CurrencyFor;
    CommitKeepsOtherTables(enforced, WithCloseout(t, step.org, step.id, t.leases[step.id], step.closeout), ctx, step.id,
                           Written(t, ctx, step).value.1);
  }
}
