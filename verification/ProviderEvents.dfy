/** What the payment provider's notifications and status replies do to payment rows. */
module ProviderEvents {
  import opened Common
  import opened PaymentModel
  import Text

  // A push notification, or the reply to a status question about a tracking id. Each is followed by
  // whether the database takes its updates: of the status, and for a reply also of the references.
  datatype ProviderEvent =
    | Notification(merchantRef: string, trackingId: string, kind: string, statusSaved: bool)
    | StatusReply(merchantRef: string, trackingId: string, code: int, description: string,
                  statusSaved: bool, referencesSaved: bool)

  // The status a notification decides, if it decides one.
  function NotificationVerdict(kind: string): Option<PaymentStatus> {
    var v := Text.Lower(Text.TrimSpace(kind));
    if v in {"completed", "paid", "success", "ipn_paid"} then Some(Completed)
    else if v in {"failed", "rejected", "cancelled", "void"} then Some(FailedStatus)
    else None
  }

  function Verdict(ev: ProviderEvent): Option<PaymentStatus> {
    match ev
    case Notification(_, _, kind, _) => NotificationVerdict(kind)
    case StatusReply(_, _, code, description, _, _) =>
      if code == 1 then Some(Completed)
      else if code == 2 || code == 3 then Some(FailedStatus)
      else if code == 0 then Some(Pending)
      else NotificationVerdict(description)
  }

  // mapProviderNotificationToPaymentStatus and mapProviderStatusCodeToPaymentStatus
  function MapProviderNotification(kind: string, current: PaymentStatus): PaymentStatus {
    match NotificationVerdict(kind)
    case Some(status) => status
    case None => if current != Unset then current else Pending
  }

  function MapProviderStatusCode(code: int, description: string, current: PaymentStatus): PaymentStatus {
    if code == 1 then Completed
    else if code == 2 || code == 3 then FailedStatus
    else if code == 0 then Pending
    else MapProviderNotification(description, current)
  }

  // ---- lookups and updates ----

  // A blank reference is left out of the lookup; with both blank nothing is found.
  predicate Matches(p: Payment, merchant: string, tracking: string) {
    (merchant != "" && p.externalRef == merchant) || (tracking != "" && p.trackingId == tracking)
  }

  // FindByMerchantRefOrTrackingID: the first match in primary-key order.
  function Find(payments: seq<Payment>, merchant: string, tracking: string, from: nat): (found: Option<nat>)
    requires from <= |payments|
    ensures found.Some? ==>
              && from <= found.value < |payments| && Matches(payments[found.value], merchant, tracking)
              && forall k :: from <= k < found.value ==> !Matches(payments[k], merchant, tracking)
    ensures found.None? ==> forall k :: from <= k < |payments| ==> !Matches(payments[k], merchant, tracking)
    decreases |payments| - from
  {
    hide Matches;
    if from == |payments| then None
    else if Matches(payments[from], merchant, tracking) then Some(from)
    else Find(payments, merchant, tracking, from + 1)
  }

  function Target(payments: seq<Payment>, ev: ProviderEvent): (found: Option<nat>)
    ensures found.Some? ==> found.value < |payments|
  {
    Find(payments, Text.TrimSpace(ev.merchantRef), Text.TrimSpace(ev.trackingId), 0)
  }

  // UpdateFromIPN, and for a status reply UpdateGatewayState after it. Either may fail.
  function Touched(p: Payment, ev: ProviderEvent): Payment {
    match ev
    case Notification(_, _, kind, saved) =>
      if !saved then p
      else p.(status := MapProviderNotification(kind, p.status), providerStatus := Text.TrimSpace(kind))
    case StatusReply(merchantRef, trackingId, code, description, saved, referencesSaved) =>
      var q :=
        if !saved then p
        else p.(status := MapProviderStatusCode(code, description, p.status), providerStatus := Text.TrimSpace(description));
      if !referencesSaved then q
      else q.(provider := "pesapal", externalRef := Text.TrimSpace(merchantRef), trackingId := Text.TrimSpace(trackingId),
              providerStatus := Text.TrimSpace(description))
  }

  function Apply(payments: seq<Payment>, ev: ProviderEvent): (after: seq<Payment>)
    ensures |after| == |payments|
  {
    match Target(payments, ev)
    case None => payments
    case Some(i) => payments[i := Touched(payments[i], ev)]
  }

  function ApplyAll(payments: seq<Payment>, events: seq<ProviderEvent>): (after: seq<Payment>)
    ensures |after| == |payments|
    decreases |events|
  {
    if events == [] then payments else ApplyAll(Apply(payments, events[0]), events[1..])
  }

  // ---- the status machine ----

  // The verdict an event reaches on payment i, if it reaches that payment, decides, and is stored.
  function VerdictOn(payments: seq<Payment>, ev: ProviderEvent, i: nat): Option<PaymentStatus> {
    if Target(payments, ev) == Some(i) && ev.statusSaved then Verdict(ev) else None
  }

  // The last verdict that a sequence of events reaches on payment i.
  function LastVerdict(payments: seq<Payment>, events: seq<ProviderEvent>, i: nat): Option<PaymentStatus>
    decreases |events|
  {
    if events == [] then None
    else
      var later := LastVerdict(Apply(payments, events[0]), events[1..], i);
      if later.Some? then later else VerdictOn(payments, events[0], i)
  }

  lemma OneEventStatus(payments: seq<Payment>, ev: ProviderEvent, i: nat)
    requires i < |payments|
    ensures Apply(payments, ev)[i].status ==
            match VerdictOn(payments, ev, i)
            case Some(status) => status
            case None => if payments[i].status == Unset && Target(payments, ev) == Some(i) && ev.statusSaved then Pending else payments[i].status
    ensures VerdictOn(payments, ev, i) != Some(Unset)
  {
    hide Target, Text.TrimSpace, Text.Lower;
  }

  // Main result: after any events a payment has the status of the last event that decided about
  // it, and otherwise the status it began with.
  lemma {:induction false} StatusIsLastVerdict(payments: seq<Payment>, events: seq<ProviderEvent>, i: nat)
    requires i < |payments| && payments[i].status != Unset
    ensures ApplyAll(payments, events)[i].status ==
            match LastVerdict(payments, events, i) case Some(status) => status case None => payments[i].status
    decreases |events|
  {
    hide Apply, VerdictOn;
    if events != [] {
      OneEventStatus(payments, events[0], i);
      StatusIsLastVerdict(Apply(payments, events[0]), events[1..], i);
    }
  }

  // The word an event carries, as the mapping reads it.
  function Word(ev: ProviderEvent): string {
    Text.Lower(Text.TrimSpace(if ev.Notification? then ev.kind else ev.description))
  }

  // A reply's code decides if it is one of the four known; otherwise, as in a notification, a word does.
  lemma VerdictWords(ev: ProviderEvent)
    ensures var coded := ev.StatusReply? && 0 <= ev.code <= 3;
            && (Verdict(ev) == Some(Completed) <==>
                  if coded then ev.code == 1 else Word(ev) in {"completed", "paid", "success", "ipn_paid"})
            && (Verdict(ev) == Some(FailedStatus) <==>
                  if coded then ev.code == 2 || ev.code == 3 else Word(ev) in {"failed", "rejected", "cancelled", "void"})
            && (Verdict(ev) == Some(Pending) <==> coded && ev.code == 0)
            && (Verdict(ev) == None <==>
                  !coded && Word(ev) !in {"completed", "paid", "success", "ipn_paid", "failed", "rejected", "cancelled", "void"})
  {
    hide Text.TrimSpace, Text.Lower;
  }

  // Event k of the sequence reaches payment i and its status update is stored.
  predicate Reaches(payments: seq<Payment>, events: seq<ProviderEvent>, k: nat, i: nat)
    requires k < |events|
  {
    Target(ApplyAll(payments, events[..k]), events[k]) == Some(i) && events[k].statusSaved
  }

  lemma ReachesLater(payments: seq<Payment>, events: seq<ProviderEvent>, k: nat, i: nat)
    requires 0 < k < |events|
    ensures Reaches(payments, events, k, i) == Reaches(Apply(payments, events[0]), events[1..], k - 1, i)
  {
    hide Target, Apply;
    assert events[..k][1..] == events[1..][..k - 1];
  }

  // Where the last verdict on a payment comes from.
  lemma {:induction false} LastVerdictAt(payments: seq<Payment>, events: seq<ProviderEvent>, i: nat) returns (last: Option<nat>)
    ensures last.Some? ==>
              && last.value < |events| && Reaches(payments, events, last.value, i)
              && LastVerdict(payments, events, i) == Verdict(events[last.value]) != None
    ensures last.None? ==> LastVerdict(payments, events, i) == None
    ensures forall k :: (if last.Some? then last.value else -1) < k < |events| ==>
              k >= 0 && (Reaches(payments, events, k, i) ==> Verdict(events[k]) == None)
    decreases |events|
  {
    hide Apply, Target, Verdict;
    if events == [] {
      last := None;
    } else {
      var later := LastVerdictAt(Apply(payments, events[0]), events[1..], i);
      assert events[..0] == [];
      assert Reaches(payments, events, 0, i) <==> Target(payments, events[0]) == Some(i) && events[0].statusSaved;
      forall k | 0 < k < |events| ensures Reaches(payments, events, k, i) == Reaches(Apply(payments, events[0]), events[1..], k - 1, i) {
        ReachesLater(payments, events, k, i);
      }
      last := if later.Some? then Some(later.value + 1)
              else if Reaches(payments, events, 0, i) && Verdict(events[0]) != None then Some(0) else None;
      hide Reaches;
      forall k | (if last.Some? then last.value else -1) < k < |events|
        ensures k >= 0 && (Reaches(payments, events, k, i) ==> Verdict(events[k]) == None)
      {
        if k > 0 {
          assert events[k] == events[1..][k - 1];
        }
      }
    }
  }

  // Main result in the provider's own words: after any events a payment is completed, failed or pending
  // as the last event reads that was stored for it and had a known code or word, and if there was none
  // it has the status it began with.
  lemma StatusIsAsLastRead(payments: seq<Payment>, events: seq<ProviderEvent>, i: nat) returns (last: Option<nat>)
    requires i < |payments| && payments[i].status != Unset
    ensures var status := ApplyAll(payments, events)[i].status;
            match last
            case None => status == payments[i].status
            case Some(n) =>
              && n < |events| && Reaches(payments, events, n, i)
              && var ev := events[n];
              && var coded := ev.StatusReply? && 0 <= ev.code <= 3;
              && (coded || Word(ev) in {"completed", "paid", "success", "ipn_paid", "failed", "rejected", "cancelled", "void"})
              && (status == Completed <==>
                    if coded then ev.code == 1 else Word(ev) in {"completed", "paid", "success", "ipn_paid"})
              && (status == FailedStatus <==>
                    if coded then ev.code == 2 || ev.code == 3 else Word(ev) in {"failed", "rejected", "cancelled", "void"})
              && (status == Pending <==> coded && ev.code == 0)
    ensures forall k :: 0 <= k < |events| && (last.Some? ==> k > last.value) && Reaches(payments, events, k, i) ==>
              && !(events[k].StatusReply? && 0 <= events[k].code <= 3)
              && Word(events[k]) !in {"completed", "paid", "success", "ipn_paid", "failed", "rejected", "cancelled", "void"}
  {
    hide ApplyAll, Reaches, LastVerdict, Verdict, Word;
    StatusIsLastVerdict(payments, events, i);
    last := LastVerdictAt(payments, events, i);
    if last.Some? {
      VerdictWords(events[last.value]);
    }
    forall k | 0 <= k < |events| && (last.Some? ==> k > last.value) && Reaches(payments, events, k, i)
      ensures && !(events[k].StatusReply? && 0 <= events[k].code <= 3)
              && Word(events[k]) !in {"completed", "paid", "success", "ipn_paid", "failed", "rejected", "cancelled", "void"}
    {
      VerdictWords(events[k]);
    }
  }

  // What an event leaves in the columns beside the status: the provider's word, trimmed, and for a reply
  // the references it was asked about, each only if that update is stored.
  lemma EventStores(payments: seq<Payment>, ev: ProviderEvent)
    requires Target(payments, ev).Some?
    ensures var i := Target(payments, ev).value;
            var (p, q) := (payments[i], Apply(payments, ev)[i]);
            var references := ev.StatusReply? && ev.referencesSaved;
            && q.providerStatus == (if ev.Notification? then (if ev.statusSaved then Text.TrimSpace(ev.kind) else p.providerStatus)
                                    else if ev.statusSaved || ev.referencesSaved then Text.TrimSpace(ev.description)
                                    else p.providerStatus)
            && q.provider == (if references then "pesapal" else p.provider)
            && q.externalRef == (if references then Text.TrimSpace(ev.merchantRef) else p.externalRef)
            && q.trackingId == (if references then Text.TrimSpace(ev.trackingId) else p.trackingId)
            && (forall k :: 0 <= k < |payments| && k != i ==> Apply(payments, ev)[k] == payments[k])
  {
    hide Text.TrimSpace, Text.Lower, Target, MapProviderNotification, MapProviderStatusCode;
  }

  // What a provider event never changes.
  predicate SameMoney(p: Payment, q: Payment) {
    q.id == p.id && q.org == p.org && q.lease == p.lease && q.amount == p.amount && q.currency == p.currency
    && q.receivedAt == p.receivedAt && q.paidBy == p.paidBy
  }

  lemma TouchedMoney(p: Payment, ev: ProviderEvent)
    ensures SameMoney(p, Touched(p, ev))
  {
    hide Text.TrimSpace, Text.Lower, MapProviderNotification, MapProviderStatusCode;
  }

  lemma ApplyKeepsMoney(payments: seq<Payment>, ev: ProviderEvent)
    ensures forall i :: 0 <= i < |payments| ==> SameMoney(payments[i], Apply(payments, ev)[i])
  {
    hide Touched, Target, SameMoney;
    forall i | 0 <= i < |payments| ensures SameMoney(payments[i], Apply(payments, ev)[i]) {
      TouchedMoney(payments[i], ev);
      SameMoneyReflexive(payments[i]);
    }
  }

  lemma SameMoneyReflexive(p: Payment)
    ensures SameMoney(p, p)
  {
  }

  // No sequence of provider events changes whose payment it is, for which lease, or how much.
  lemma {:induction false} EventsKeepMoney(payments: seq<Payment>, events: seq<ProviderEvent>)
    ensures forall i :: 0 <= i < |payments| ==> SameMoney(payments[i], ApplyAll(payments, events)[i])
    decreases |events|
  {
    hide Apply;
    if events == [] {
      forall i | 0 <= i < |payments| ensures SameMoney(payments[i], payments[i]) {}
    } else {
      var next := Apply(payments, events[0]);
      ApplyKeepsMoney(payments, events[0]);
      EventsKeepMoney(next, events[1..]);
      forall i | 0 <= i < |payments| ensures SameMoney(payments[i], ApplyAll(payments, events)[i]) {
        assert SameMoney(payments[i], next[i]) && SameMoney(next[i], ApplyAll(next, events[1..])[i]);
      }
    }
  }

  // Delivering an event twice in a row is delivering it once: the second delivery finds the same
  // payment, although a status reply rewrites the very references it was found by.
  lemma ReplayChangesNothing(payments: seq<Payment>, ev: ProviderEvent)
    ensures Apply(Apply(payments, ev), ev) == Apply(payments, ev)
  {
    hide Matches, Touched, Find, Text.TrimSpace, Text.Lower;
    if Target(payments, ev).Some? {
      var i := Target(payments, ev).value;
      var after := payments[i := Touched(payments[i], ev)];
      TouchedAgain(payments[i], ev);
      FoundAtFirstMatch(after, Text.TrimSpace(ev.merchantRef), Text.TrimSpace(ev.trackingId), i);
      assert after[i := Touched(after[i], ev)] == after;
    }
  }

  lemma MatchesExact(p: Payment, merchant: string, tracking: string)
    ensures Matches(p, merchant, tracking) <==>
            (p.externalRef == merchant && merchant != "") || (p.trackingId == tracking && tracking != "")
  {
  }

  // Which payment an event reaches: the one that matches it and comes first among those that do.
  lemma TargetExact(payments: seq<Payment>, ev: ProviderEvent, i: nat)
    requires i < |payments|
    ensures var (merchant, tracking) := (Text.TrimSpace(ev.merchantRef), Text.TrimSpace(ev.trackingId));
            Target(payments, ev) == Some(i) <==>
              Matches(payments[i], merchant, tracking) && forall k :: 0 <= k < i ==> !Matches(payments[k], merchant, tracking)
    ensures var (merchant, tracking) := (Text.TrimSpace(ev.merchantRef), Text.TrimSpace(ev.trackingId));
            Matches(payments[i], merchant, tracking) <==>
              || (payments[i].externalRef == merchant && merchant != "")
              || (payments[i].trackingId == tracking && tracking != "")
  {
    MatchesExact(payments[i], Text.TrimSpace(ev.merchantRef), Text.TrimSpace(ev.trackingId));
    hide Matches, Find, Text.TrimSpace;
    var (merchant, tracking) := (Text.TrimSpace(ev.merchantRef), Text.TrimSpace(ev.trackingId));
    if Matches(payments[i], merchant, tracking) && forall k :: 0 <= k < i ==> !Matches(payments[k], merchant, tracking) {
      FoundAtFirstMatch(payments, merchant, tracking, i);
    }
  }

  // A placeholder reference is the second of initiation, so two payments can share one, and an event
  // that quotes it reaches the earlier in key order, whichever it was about.
  lemma SharedReferenceReachesFirst(p: Payment, q: Payment, ev: ProviderEvent)
    requires p.externalRef == q.externalRef == Text.TrimSpace(ev.merchantRef) != ""
    ensures Target([p, q], ev) == Some(0)
    ensures Apply([p, q], ev)[1] == q
  {
    hide Text.TrimSpace, Touched;
    TargetExact([p, q], ev, 0);
  }

  lemma FoundAtFirstMatch(payments: seq<Payment>, merchant: string, tracking: string, i: nat)
    requires i < |payments| && Matches(payments[i], merchant, tracking)
    requires forall k :: 0 <= k < i ==> !Matches(payments[k], merchant, tracking)
    ensures Find(payments, merchant, tracking, 0) == Some(i)
  {
    hide Matches, Find;
  }

  // A touched payment can still be found by the event, and touching it again changes nothing.
  lemma TouchedAgain(p: Payment, ev: ProviderEvent)
    requires Matches(p, Text.TrimSpace(ev.merchantRef), Text.TrimSpace(ev.trackingId))
    ensures Matches(Touched(p, ev), Text.TrimSpace(ev.merchantRef), Text.TrimSpace(ev.trackingId))
    ensures Touched(Touched(p, ev), ev) == Touched(p, ev)
  {
    hide Text.TrimSpace, Text.Lower;
  }

  // ---- totals ----

  function TotalWith(payments: seq<Payment>, status: PaymentStatus): int {
    if payments == [] then 0
    else TotalWith(payments[..|payments| - 1], status)
         + if payments[|payments| - 1].status == status then payments[|payments| - 1].amount else 0
  }

  function Share(p: Payment, status: PaymentStatus): int {
    if p.status == status then p.amount else 0
  }

  lemma {:induction false} TotalAfterUpdate(payments: seq<Payment>, i: nat, q: Payment, status: PaymentStatus)
    requires i < |payments|
    ensures TotalWith(payments[i := q], status) == TotalWith(payments, status) - Share(payments[i], status) + Share(q, status)
    decreases |payments|
  {
    var n := |payments| - 1;
    var after := payments[i := q];
    if i == n {
      assert after[..n] == payments[..n];
    } else {
      assert after[..n] == payments[..n][i := q];
      TotalAfterUpdate(payments[..n], i, q, status);
    }
  }

  // One event moves at most one payment's amount, all of it, from one status total to another.
  lemma EventMovesOneAmount(payments: seq<Payment>, ev: ProviderEvent, status: PaymentStatus)
    ensures match Target(payments, ev)
            case None => TotalWith(Apply(payments, ev), status) == TotalWith(payments, status)
            case Some(i) =>
              var (before, after) := (payments[i], Apply(payments, ev)[i]);
              && after.amount == before.amount
              && TotalWith(Apply(payments, ev), status) - TotalWith(payments, status) ==
                 (if before.status == after.status then 0
                  else if status == before.status then -before.amount
                  else if status == after.status then before.amount
                  else 0)
  {
    hide Touched, Find, Text.TrimSpace, Text.Lower, TotalWith;
    var found := Target(payments, ev);
    if found.Some? {
      TouchedMoney(payments[found.value], ev);
      TotalAfterUpdate(payments, found.value, Touched(payments[found.value], ev), status);
    }
  }
}
