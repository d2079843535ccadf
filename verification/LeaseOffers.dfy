/** The terms of renewal offers: an offer is what its request asked for, no request changes its terms,
    and the lease an acceptance adds has them. */
module LeaseOffers {
  import opened Common
  import opened LeaseRanges
  import opened LeaseModel
  import opened LeaseSteps
  import opened LeaseTheorems
  import opened RenewalTheorems
  import Text

  // A request that goes through adds exactly one offer, open and for its lease, with the range and the
  // rent asked for and the currency given, else the lease's, else dollars; it touches nothing else.
  lemma OfferStores(enforced: bool, t: Tables, ctx: Context, step: Step)
    requires step.CreateRenewalOffer?
    ensures var (after, reply) := Next(enforced, t, ctx, step);
            && (reply == Done <==> GoesThrough(t, ctx, step))
            && (reply != Done ==> after == t)
            && (reply == Done ==>
                  && step.id in t.leases && step.newId !in t.offers && step.newId in after.offers
                  && after == t.(offers := after.offers)
                  && after.offers.Keys == t.offers.Keys + {step.newId}
                  && (forall o :: o in t.offers ==> after.offers[o] == t.offers[o])
                  && var (offer, req, l) := (after.offers[step.newId], step.offerRequest, t.leases[step.id]);
                  && offer.status == Offered && offer.org == step.org && offer.lease == step.id
                  && offer.range == req.range && offer.rent == req.rent
                  && (Text.TrimSpace(req.currency) != "" ==> offer.currency == Text.Upper(Text.TrimSpace(req.currency)))
                  && (Text.TrimSpace(req.currency) == "" ==> offer.currency == if l.currency == "" then "USD" else l.currency))
  {
    hide CurrencyFor, Text.TrimSpace, Text.Upper;
    if step.id in t.leases {
      CurrencyGiven(step.offerRequest.currency, t.leases[step.id]);
    }
  }

  predicate SameTerms(a: Offer, b: Offer) {
    a.org == b.org && a.lease == b.lease && a.range == b.range && a.rent == b.rent && a.currency == b.currency
  }

  // No request removes a stored offer or changes its lease, range, rent or currency.
  lemma OfferTermsKept(enforced: bool, t: Tables, ctx: Context, step: Step, offer: Id)
    requires offer in t.offers
    ensures var after := Next(enforced, t, ctx, step).0.offers; offer in after && SameTerms(after[offer], t.offers[offer])
  {
    match step
    case CreateRenewalOffer(_, _, _, _) =>
      hide Next;
      OfferStores(enforced, t, ctx, step);
    case RejectRenewalOffer(_, _, _) =>
    case AcceptRenewalOffer(_, _, _, _) =>
      hide Next;
      AcceptanceTables(enforced, t, ctx, step);
    case _ =>
      hide Next;
      OtherTablesKept(enforced, t, ctx, step);
  }

  // The request made this offer: for its lease, with its range and rent, and its currency if it gives one.
  predicate Made(step: Step, id: Id, offer: Offer) {
    && step.CreateRenewalOffer? && step.newId == id
    && offer.org == step.org && offer.lease == step.id
    && offer.range == step.offerRequest.range && offer.rent == step.offerRequest.rent
    && (Text.TrimSpace(step.offerRequest.currency) != "" ==>
          offer.currency == Text.Upper(Text.TrimSpace(step.offerRequest.currency)))
  }

  lemma NewOfferIsMade(enforced: bool, t: Tables, ctx: Context, step: Step, id: Id)
    requires id !in t.offers && id in Next(enforced, t, ctx, step).0.offers
    ensures Made(step, id, Next(enforced, t, ctx, step).0.offers[id])
  {
    match step
    case CreateRenewalOffer(_, _, _, _) =>
      hide Next, Text.TrimSpace, Text.Upper;
      OfferStores(enforced, t, ctx, step);
    case RejectRenewalOffer(_, _, _) =>
    case AcceptRenewalOffer(_, _, _, _) =>
      hide Next;
      AcceptanceTables(enforced, t, ctx, step);
    case _ =>
      hide Next;
      OtherTablesKept(enforced, t, ctx, step);
  }

  lemma MadeHasTerms(step: Step, id: Id, a: Offer, b: Offer)
    requires SameTerms(a, b)
    ensures Made(step, id, a) == Made(step, id, b)
  {
  }

  lemma {:induction false} TermsKeptOverRuns(enforced: bool, t: Tables, events: seq<Event>, id: Id)
    requires id in t.offers
    ensures id in Run(enforced, t, events).offers && SameTerms(Run(enforced, t, events).offers[id], t.offers[id])
    decreases |events|
  {
    hide Next;
    if events != [] {
      OfferTermsKept(enforced, t, events[0].ctx, events[0].step, id);
      TermsKeptOverRuns(enforced, Next(enforced, t, events[0].ctx, events[0].step).0, events[1..], id);
    }
  }

  // Over every run, every offer that was not there at the start was made by a request of the run, and
  // has that request's terms to the end.
  lemma {:induction false} OffersAreAsRequested(enforced: bool, t: Tables, events: seq<Event>, id: Id)
    requires id !in t.offers && id in Run(enforced, t, events).offers
    ensures exists k :: 0 <= k < |events| && Made(events[k].step, id, Run(enforced, t, events).offers[id])
    decreases |events|
  {
    hide Next, Made, SameTerms;
    var (ctx, step) := (events[0].ctx, events[0].step);
    var next := Next(enforced, t, ctx, step).0;
    var last := Run(enforced, t, events).offers[id];
    if id in next.offers {
      NewOfferIsMade(enforced, t, ctx, step, id);
      TermsKeptOverRuns(enforced, next, events[1..], id);
      MadeHasTerms(step, id, last, next.offers[id]);
    } else {
      OffersAreAsRequested(enforced, next, events[1..], id);
      var k :| 0 <= k < |events| - 1 && Made(events[1..][k].step, id, last);
      assert events[k + 1] == events[1..][k];
    }
  }

  // So over every run, a lease that an acceptance adds at its end, on an offer that was not there at
  // the start, has the range and the rent of the request that made the offer, for the very lease that
  // request was about, whose unit and tenant it takes.
  lemma RenewalIsAsRequested(enforced: bool, t: Tables, events: seq<Event>, ctx: Context, step: Step)
    requires enforced ==> Lawful(t.leases)
    requires step.AcceptRenewalOffer? && step.offer !in t.offers && Takes(enforced, Run(enforced, t, events), ctx, step)
    ensures var before := Run(enforced, t, events);
            var after := Next(enforced, before, ctx, step).0;
            && step.newId in after.leases && step.id in before.leases
            && var (l, was) := (after.leases[step.newId], before.leases[step.id]);
            && l.status == Active && l.isPrimary && l.unit == was.unit && l.tenant == was.tenant && l.org == was.org
            && l.deposit == None && l.dueDay == None && l.amountOverride == None && l.channel == ""
            && exists k :: 0 <= k < |events| && events[k].step.CreateRenewalOffer?
                 && events[k].step.id == step.id && events[k].step.newId == step.offer
                 && l.range == events[k].step.offerRequest.range && l.rent == events[k].step.offerRequest.rent
  {
    var before := Run(enforced, t, events);
    if enforced {
      EnforcedRun(t, events);
    }
    TakenAcceptance(enforced, before, ctx, step);
    hide Next, Run, Takes, Lawful, TenantOffer, Text.TrimSpace, Text.Upper;
    AcceptanceExact(enforced, before, ctx, step);
    OffersAreAsRequested(enforced, t, events, step.offer);
    var k :| 0 <= k < |events| && Made(events[k].step, step.offer, before.offers[step.offer]);
    assert events[k].step.id == step.id;
  }

  lemma TakenAcceptance(enforced: bool, t: Tables, ctx: Context, step: Step)
    requires step.AcceptRenewalOffer? && Takes(enforced, t, ctx, step)
    ensures Acceptable(t, ctx, step) && step.id in t.leases && step.offer in t.offers
    ensures t.offers[step.offer].lease == step.id && t.offers[step.offer].org == t.leases[step.id].org
  {
    hide Permitted;
  }
}
