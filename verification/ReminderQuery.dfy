/** The reminder-candidates query: unpaid charges up to the end of the month, UNION ALL one row
    per live lease that has no unpaid charge this month, due on the lease's clamped due day.
    The session's time zone is UTC, so all truncation happens on one calendar. */
module ReminderQuery {
  import opened Common
  import opened Calendar
  import opened LeaseModel
  import opened PaymentModel
  import Text

  datatype Tenant = Tenant(org: Id, billingChannel: string)

  datatype Level = Reminder1 | Reminder2 | FinalNotice

  datatype Candidate = Candidate(
    chargeId: Id, lease: Id, tenant: Id, amount: int, dueAt: Instant, level: Level, channel: string)

  // leaseIds lists the rows of the leases table; the tables' primary keys make both lists duplicate free.
  datatype Tables = Tables(
    leases: map<Id, Lease>, leaseIds: seq<Id>, tenants: map<Id, Tenant>, charges: seq<Charge>)

  ghost predicate Listed(t: Tables) {
    && (forall i, j :: 0 <= i < j < |t.leaseIds| ==> t.leaseIds[i] != t.leaseIds[j])
    && (forall id :: id in t.leaseIds <==> id in t.leases)
    && (forall i, j :: 0 <= i < j < |t.charges| ==> t.charges[i] != t.charges[j])
  }

  // LOWER(COALESCE(NULLIF(TRIM(status), ''), 'scheduled')) IN (...)
  predicate IsUnpaid(status: string) {
    var v := Text.Lower(Text.TrimBlanks(status));
    v in {"", "scheduled", "posted", "pending", "unpaid"}
  }

  function Channel(t: Tenant): string {
    if Text.Lower(Text.TrimBlanks(t.billingChannel)) == "sms" then "sms" else "email"
  }

  function ThisMonth(now: Instant): Instant {
    MonthStart(MonthOf(now))
  }

  function NextMonth(now: Instant): Instant {
    MonthStart(MonthOf(now) + 1)
  }

  // The joins of both branches: the lease's tenant row exists in the lease's organization.
  predicate HasTenant(t: Tables, l: Lease) {
    l.tenant in t.tenants && t.tenants[l.tenant].org == l.org
  }

  // ---- charge_candidates ----

  predicate ChargeQualifies(t: Tables, org: Id, now: Instant, c: Charge) {
    && c.org == org && c.lease in t.leases && t.leases[c.lease].org == c.org && HasTenant(t, t.leases[c.lease])
    && IsUnpaid(c.status) && c.dueAt < NextMonth(now)
  }

  function SuggestedLevel(dueAt: Instant, now: Instant): Level {
    if dueAt < now - 14 * DAY then FinalNotice else if dueAt < now - 7 * DAY then Reminder2 else Reminder1
  }

  function ChargeRow(t: Tables, now: Instant, c: Charge): Candidate
    requires c.lease in t.leases && HasTenant(t, t.leases[c.lease])
  {
    var l := t.leases[c.lease];
    Candidate(c.id, c.lease, l.tenant, c.amount, c.dueAt, SuggestedLevel(c.dueAt, now), Channel(t.tenants[l.tenant]))
  }

  function ChargeRows(t: Tables, org: Id, now: Instant, charges: seq<Charge>): seq<Candidate> {
    if charges == [] then []
    else
      var c := charges[0];
      (if ChargeQualifies(t, org, now, c) then [ChargeRow(t, now, c)] else []) + ChargeRows(t, org, now, charges[1..])
  }

  // ---- lease_due_candidates ----

  // EXTRACT(DAY FROM date_trunc('month', now()) + interval '1 month - 1 day')
  function LastDay(now: Instant): int {
    DayOfMonth(NextMonth(now) - DAY)
  }

  // LEAST(GREATEST(COALESCE(billing_due_day, 1), 1), last day)
  function ClampedDueDay(dueDay: Option<int>, now: Instant): int {
    var wanted := if dueDay.Some? then dueDay.value else 1;
    var atLeastOne := if wanted > 1 then wanted else 1;
    if atLeastOne < LastDay(now) then atLeastOne else LastDay(now)
  }

  function DueAt(dueDay: Option<int>, now: Instant): Option<Instant> {
    var m := MonthOf(now);
    MakeTimestamp(m / 12, m % 12 + 1, ClampedDueDay(dueDay, now))
  }

  // NOT EXISTS (an unpaid charge of the lease in the month of its due date)
  predicate UnpaidInMonthOf(t: Tables, id: Id, l: Lease, due: Instant) {
    exists c :: c in t.charges && c.org == l.org && c.lease == id && IsUnpaid(c.status)
      && ThisMonth(due) <= c.dueAt < NextMonth(due)
  }

  predicate IsLiveStatus(l: Lease) {
    l.status == Active || l.status == PendingApproval
  }

  predicate LeaseQualifies(t: Tables, org: Id, now: Instant, id: Id, l: Lease, due: Instant) {
    && l.org == org && HasTenant(t, l) && IsLiveStatus(l)
    && ThisMonth(now) <= due < NextMonth(now)
    && !UnpaidInMonthOf(t, id, l, due)
  }

  // The whole query fails if make_timestamptz refuses a day, so the branch may fail too.
  function LeaseDueRows(t: Tables, org: Id, now: Instant, ids: seq<Id>): Result<seq<Candidate>, ()>
    requires forall id :: id in ids ==> id in t.leases
  {
    if ids == [] then Ok([])
    else
      var l := t.leases[ids[0]];
      match DueAt(l.dueDay, now)
      case None => Err(())
      case Some(due) =>
        match LeaseDueRows(t, org, now, ids[1..])
        case Err(e) => Err(e)
        case Ok(rest) =>
          Ok((if LeaseQualifies(t, org, now, ids[0], l, due) then
                [Candidate(ids[0], ids[0], l.tenant, if l.amountOverride.Some? then l.amountOverride.value else l.rent,
                           due, Reminder1, Channel(t.tenants[l.tenant]))]
              else []) + rest)
  }

  // The UNION ALL; ORDER BY due_at only arranges these rows.
  function ReminderCandidates(t: Tables, org: Id, now: Instant): Result<seq<Candidate>, ()>
    requires Listed(t)
  {
    match LeaseDueRows(t, org, now, t.leaseIds)
    case Err(e) => Err(e)
    case Ok(due) => Ok(ChargeRows(t, org, now, t.charges) + due)
  }

  // ---- the clamped due day is a day of the month ----

  lemma LastDayIsMonthLength(now: Instant)
    ensures LastDay(now) == DaysInMonth(MonthOf(now))
  {
    hide MonthStart, DaysInMonth, MonthOf, DayOfMonth;
    var m := MonthOf(now);
    MonthLength(m);
    DayLiesInMonth(m, DaysInMonth(m), 0);
  }

  // For every due day, even one a month does not have, and every month, leap Februaries
  // included, the database accepts the clamped date, and it lies in the current month.
  lemma DueDayExists(dueDay: Option<int>, now: Instant)
    ensures DueAt(dueDay, now).Some?
    ensures MonthOf(DueAt(dueDay, now).value) == MonthOf(now)
    ensures ThisMonth(now) <= DueAt(dueDay, now).value < NextMonth(now)
    ensures var wanted := if dueDay.Some? then dueDay.value else 1;
            DayOfMonth(DueAt(dueDay, now).value) ==
            if wanted < 1 then 1 else if wanted > DaysInMonth(MonthOf(now)) then DaysInMonth(MonthOf(now)) else wanted
  {
    hide MonthStart, DaysInMonth, MonthOf, DayOfMonth;
    var m := MonthOf(now);
    LastDayIsMonthLength(now);
    var day := ClampedDueDay(dueDay, now);
    assert 12 * (m / 12) + (m % 12 + 1) - 1 == m;
    DayLiesInMonth(m, day, 0);
    assert DueAt(dueDay, now) == Some(MonthStart(m) + (day - 1) * DAY);
  }

  // ---- counting rows ----

  function CountFor(rows: seq<Candidate>, lease: Id): nat {
    if rows == [] then 0 else (if rows[0].lease == lease then 1 else 0) + CountFor(rows[1..], lease)
  }

  lemma {:induction false} CountAppend(a: seq<Candidate>, b: seq<Candidate>, lease: Id)
    ensures CountFor(a + b, lease) == CountFor(a, lease) + CountFor(b, lease)
    decreases |a|
  {
    if a == [] {
      assert a + b == b;
    } else {
      assert (a + b)[1..] == a[1..] + b;
      CountAppend(a[1..], b, lease);
    }
  }

  function CountCharges(t: Tables, org: Id, now: Instant, charges: seq<Charge>, lease: Id): nat {
    if charges == [] then 0
    else (if ChargeQualifies(t, org, now, charges[0]) && charges[0].lease == lease then 1 else 0)
         + CountCharges(t, org, now, charges[1..], lease)
  }

  // The charge branch has one row for each qualifying charge.
  lemma {:induction false} ChargeRowsCount(t: Tables, org: Id, now: Instant, charges: seq<Charge>, lease: Id)
    ensures CountFor(ChargeRows(t, org, now, charges), lease) == CountCharges(t, org, now, charges, lease)
    decreases |charges|
  {
    hide ChargeQualifies, Channel, SuggestedLevel;
    if charges != [] {
      ChargeRowsCount(t, org, now, charges[1..], lease);
      var rest := ChargeRows(t, org, now, charges[1..]);
      var all := ChargeRows(t, org, now, charges);
      if ChargeQualifies(t, org, now, charges[0]) {
        assert all[1..] == rest;
      } else {
        assert all == rest;
      }
    }
  }

  lemma {:induction false} ChargesCounted(t: Tables, org: Id, now: Instant, charges: seq<Charge>, lease: Id)
    ensures CountCharges(t, org, now, charges, lease) > 0 <==>
            exists c :: c in charges && ChargeQualifies(t, org, now, c) && c.lease == lease
    decreases |charges|
  {
    hide ChargeQualifies;
    if charges != [] {
      assert charges[0] in charges;
      assert forall c :: c in charges <==> c == charges[0] || c in charges[1..];
      ChargesCounted(t, org, now, charges[1..], lease);
    }
  }

  predicate GetsDueRow(t: Tables, org: Id, now: Instant, id: Id)
    requires id in t.leases
  {
    var due := DueAt(t.leases[id].dueDay, now);
    due.Some? && LeaseQualifies(t, org, now, id, t.leases[id], due.value)
  }

  lemma TailDistinct(ids: seq<Id>)
    requires ids != [] && forall i, j :: 0 <= i < j < |ids| ==> ids[i] != ids[j]
    ensures forall i, j :: 0 <= i < j < |ids[1..]| ==> ids[1..][i] != ids[1..][j]
    ensures ids[0] !in ids[1..]
    ensures forall id :: id in ids <==> id == ids[0] || id in ids[1..]
  {
  }

  lemma DueRowsStep(t: Tables, org: Id, now: Instant, ids: seq<Id>)
    requires ids != [] && forall id :: id in ids ==> id in t.leases
    requires LeaseDueRows(t, org, now, ids[1..]).Ok?
    ensures LeaseDueRows(t, org, now, ids).Ok?
    ensures var (rest, all) := (LeaseDueRows(t, org, now, ids[1..]).value, LeaseDueRows(t, org, now, ids).value);
            if GetsDueRow(t, org, now, ids[0]) then exists row: Candidate :: row.lease == ids[0] && all == [row] + rest
            else all == rest
  {
    hide LeaseQualifies, DueAt, Channel, MonthOf, MonthStart;
    assert DueAt(t.leases[ids[0]].dueDay, now).Some? by { DueDayExists(t.leases[ids[0]].dueDay, now); }
    var rest := LeaseDueRows(t, org, now, ids[1..]).value;
    var all := LeaseDueRows(t, org, now, ids).value;
    if GetsDueRow(t, org, now, ids[0]) {
      var row := all[0];
      assert row.lease == ids[0] && all == [row] + rest;
    } else {
      assert all == [] + rest;
    }
  }

  // The lease branch never fails and has one row for each qualifying lease.
  lemma {:induction false} LeaseDueRowsCount(t: Tables, org: Id, now: Instant, ids: seq<Id>, lease: Id)
    requires forall id :: id in ids ==> id in t.leases
    requires forall i, j :: 0 <= i < j < |ids| ==> ids[i] != ids[j]
    ensures LeaseDueRows(t, org, now, ids).Ok?
    ensures CountFor(LeaseDueRows(t, org, now, ids).value, lease) ==
            if lease in ids && GetsDueRow(t, org, now, lease) then 1 else 0
    decreases |ids|
  {
    if ids != [] {
      hide LeaseDueRows, GetsDueRow, CountFor;
      TailDistinct(ids);
      LeaseDueRowsCount(t, org, now, ids[1..], lease);
      DueRowsStep(t, org, now, ids);
      var rest := LeaseDueRows(t, org, now, ids[1..]).value;
      if GetsDueRow(t, org, now, ids[0]) {
        var row: Candidate :| row.lease == ids[0] && LeaseDueRows(t, org, now, ids).value == [row] + rest;
        CountAppend([row], rest, lease);
        OneToCount(row, lease);
      }
    }
  }

  lemma OneToCount(row: Candidate, lease: Id)
    ensures CountFor([row], lease) == if row.lease == lease then 1 else 0
  {
  }

  // Some unpaid charge of the lease falls in the current month.
  predicate UnpaidThisMonth(t: Tables, id: Id, now: Instant)
    requires id in t.leases
  {
    UnpaidInMonthOf(t, id, t.leases[id], now)
  }

  // Main result: the query never fails; every active or pending lease with a tenant row is covered; and
  // the current month is counted once. A charge of the lease due in the month holds the lease-due row
  // back exactly when its status is blank or reads scheduled, posted, pending or unpaid.
  lemma EveryLiveLeaseIsCovered(t: Tables, org: Id, now: Instant, id: Id)
    requires Listed(t) && id in t.leases && t.leases[id].org == org
    requires t.leases[id].tenant in t.tenants && t.tenants[t.leases[id].tenant].org == org
    requires t.leases[id].status == Active || t.leases[id].status == PendingApproval
    ensures ReminderCandidates(t, org, now).Ok? && LeaseDueRows(t, org, now, t.leaseIds).Ok?
    ensures var owed := exists c :: c in t.charges && c.org == org && c.lease == id
                          && MonthStart(MonthOf(now)) <= c.dueAt < MonthStart(MonthOf(now) + 1)
                          && Text.Lower(Text.TrimBlanks(c.status)) in {"", "scheduled", "posted", "pending", "unpaid"};
            CountFor(LeaseDueRows(t, org, now, t.leaseIds).value, id) == if owed then 0 else 1
    ensures CountFor(ReminderCandidates(t, org, now).value, id) >= 1
  {
    LiveLeaseCovered(t, org, now, id);
    hide GetsDueRow, UnpaidInMonthOf, UnpaidThisMonth, LeaseDueRows, ReminderCandidates, MonthStart, MonthOf,
         Text.Lower, Text.TrimBlanks;
    UnpaidInWords(t, id, now);
  }

  lemma LiveLeaseCovered(t: Tables, org: Id, now: Instant, id: Id)
    requires Listed(t) && id in t.leases && t.leases[id].org == org
    requires HasTenant(t, t.leases[id]) && IsLiveStatus(t.leases[id])
    ensures ReminderCandidates(t, org, now).Ok? && LeaseDueRows(t, org, now, t.leaseIds).Ok?
    ensures CountFor(LeaseDueRows(t, org, now, t.leaseIds).value, id) == if UnpaidThisMonth(t, id, now) then 0 else 1
    ensures CountFor(ReminderCandidates(t, org, now).value, id) >= 1
  {
    var l := t.leases[id];
    QualifiesAll(t, org, now, id);
    hide MonthStart, MonthOf, LeaseDueRows, ChargeRows, ChargeQualifies;
    DueDayExists(l.dueDay, now);
    LeaseDueRowsCount(t, org, now, t.leaseIds, id);
    var due := LeaseDueRows(t, org, now, t.leaseIds).value;
    CountAppend(ChargeRows(t, org, now, t.charges), due, id);
    ChargeRowsCount(t, org, now, t.charges, id);
    ChargesCounted(t, org, now, t.charges, id);
    assert GetsDueRow(t, org, now, id) == !UnpaidThisMonth(t, id, now) by { DueRowUnlessUnpaid(t, org, now, id); }
  }

  lemma DueRowUnlessUnpaid(t: Tables, org: Id, now: Instant, id: Id)
    requires id in t.leases && t.leases[id].org == org && HasTenant(t, t.leases[id]) && IsLiveStatus(t.leases[id])
    ensures GetsDueRow(t, org, now, id) == !UnpaidThisMonth(t, id, now)
  {
    hide MonthStart, MonthOf, IsUnpaid, DueAt;
    DueDayExists(t.leases[id].dueDay, now);
  }

  lemma UnpaidInWords(t: Tables, id: Id, now: Instant)
    requires id in t.leases
    ensures UnpaidThisMonth(t, id, now) <==>
            exists c :: c in t.charges && c.org == t.leases[id].org && c.lease == id
              && MonthStart(MonthOf(now)) <= c.dueAt < MonthStart(MonthOf(now) + 1)
              && Text.Lower(Text.TrimBlanks(c.status)) in {"", "scheduled", "posted", "pending", "unpaid"}
  {
    hide MonthStart, MonthOf, Text.Lower, Text.TrimBlanks;
  }

  // Of a lease with a tenant row, the charges that hold its lease-due row back have rows themselves.
  lemma QualifiesAll(t: Tables, org: Id, now: Instant, id: Id)
    requires id in t.leases && t.leases[id].org == org && HasTenant(t, t.leases[id])
    ensures UnpaidThisMonth(t, id, now) <==>
            exists c :: c in t.charges && ChargeQualifies(t, org, now, c) && c.lease == id && c.dueAt >= ThisMonth(now)
  {
    hide MonthStart, MonthOf, IsUnpaid;
  }

  // Other leases, and other organizations' leases, get no lease-due row.
  lemma OnlyLiveLeasesGetDueRows(t: Tables, org: Id, now: Instant, id: Id)
    requires Listed(t)
    requires id in t.leases ==>
               var l := t.leases[id];
               || l.org != org || l.tenant !in t.tenants || t.tenants[l.tenant].org != org
               || (l.status != Active && l.status != PendingApproval)
    ensures LeaseDueRows(t, org, now, t.leaseIds).Ok?
    ensures CountFor(LeaseDueRows(t, org, now, t.leaseIds).value, id) == 0
  {
    LeaseDueRowsCount(t, org, now, t.leaseIds, id);
  }

  // ---- what the rows say ----

  // A charge has a row exactly when it is the organization's, its lease and tenant are too, it is due
  // before the end of the month, and its status is blank or reads one of the four open words.
  lemma OpenChargesOnly(t: Tables, org: Id, now: Instant, c: Charge)
    ensures ChargeQualifies(t, org, now, c) <==>
            && c.org == org && c.lease in t.leases && t.leases[c.lease].org == org
            && t.leases[c.lease].tenant in t.tenants && t.tenants[t.leases[c.lease].tenant].org == org
            && c.dueAt < MonthStart(MonthOf(now) + 1)
            && Text.Lower(Text.TrimBlanks(c.status)) in {"", "scheduled", "posted", "pending", "unpaid"}
  {
    hide MonthStart, MonthOf, Text.Lower, Text.TrimBlanks;
  }

  // The row of a charge: its lease's tenant, its amount and due time, a level by how many days it is
  // overdue, and the tenant's channel, e-mail unless that reads sms.
  lemma ChargeRowSays(t: Tables, now: Instant, c: Charge)
    requires c.lease in t.leases && HasTenant(t, t.leases[c.lease])
    ensures var (row, tenant) := (ChargeRow(t, now, c), t.leases[c.lease].tenant);
            && row.chargeId == c.id && row.lease == c.lease && row.tenant == tenant
            && row.amount == c.amount && row.dueAt == c.dueAt
            && (row.level == FinalNotice <==> c.dueAt < now - 14 * 86_400_000_000_000)
            && (row.level == Reminder1 <==> c.dueAt >= now - 7 * 86_400_000_000_000)
            && row.channel == if Text.Lower(Text.TrimBlanks(t.tenants[tenant].billingChannel)) == "sms" then "sms" else "email"
  {
    hide Text.Lower, Text.TrimBlanks;
  }

  predicate IsRowOf(t: Tables, org: Id, now: Instant, c: Charge, row: Candidate) {
    ChargeQualifies(t, org, now, c) && row == ChargeRow(t, now, c)
  }

  // The charge branch has such a row for each qualifying charge, and no other row.
  lemma {:induction false} ChargeRowsExact(t: Tables, org: Id, now: Instant, charges: seq<Charge>, row: Candidate)
    ensures row in ChargeRows(t, org, now, charges) <==> exists c :: c in charges && IsRowOf(t, org, now, c, row)
    decreases |charges|
  {
    if charges != [] {
      ChargeRowsExact(t, org, now, charges[1..], row);
      FirstChargeRow(t, org, now, charges, row);
      hide IsRowOf, ChargeRows;
      assert forall c :: c in charges <==> c == charges[0] || c in charges[1..];
    }
  }

  lemma FirstChargeRow(t: Tables, org: Id, now: Instant, charges: seq<Charge>, row: Candidate)
    requires charges != []
    ensures row in ChargeRows(t, org, now, charges) <==>
            IsRowOf(t, org, now, charges[0], row) || row in ChargeRows(t, org, now, charges[1..])
  {
    hide ChargeRow, IsUnpaid, NextMonth;
  }

  // The row of a lease: the lease itself in the charge's place, the billing amount or else the rent, due
  // on the clamped day, at the first level, by the tenant's channel.
  lemma {:induction false} LeaseDueRowsSay(t: Tables, org: Id, now: Instant, ids: seq<Id>, row: Candidate)
    requires (forall id :: id in ids ==> id in t.leases) && LeaseDueRows(t, org, now, ids).Ok?
    requires row in LeaseDueRows(t, org, now, ids).value
    ensures row.lease in ids && row.lease in t.leases && GetsDueRow(t, org, now, row.lease)
    ensures var l := t.leases[row.lease];
            && row.chargeId == row.lease && row.tenant == l.tenant && row.level == Reminder1
            && row.amount == (if l.amountOverride.Some? then l.amountOverride.value else l.rent)
            && DueAt(l.dueDay, now) == Some(row.dueAt)
            && row.tenant in t.tenants
            && row.channel == if Text.Lower(Text.TrimBlanks(t.tenants[row.tenant].billingChannel)) == "sms" then "sms" else "email"
    decreases |ids|
  {
    hide DueAt, UnpaidInMonthOf, Text.Lower, Text.TrimBlanks, MonthStart, MonthOf;
    var rest := LeaseDueRows(t, org, now, ids[1..]).value;
    if row in rest {
      LeaseDueRowsSay(t, org, now, ids[1..], row);
    }
  }

  // ---- a charge of any other status is as good as absent ----

  function WithCharge(t: Tables, place: nat, c: Charge): Tables
    requires place <= |t.charges|
  {
    t.(charges := t.charges[..place] + [c] + t.charges[place..])
  }

  lemma {:induction false} ChargeRowsLook(t: Tables, u: Tables, org: Id, now: Instant, charges: seq<Charge>)
    requires u.leases == t.leases && u.tenants == t.tenants
    ensures ChargeRows(u, org, now, charges) == ChargeRows(t, org, now, charges)
    decreases |charges|
  {
    hide IsUnpaid, Channel, SuggestedLevel, MonthStart, MonthOf;
    if charges != [] {
      ChargeRowsLook(t, u, org, now, charges[1..]);
    }
  }

  lemma {:induction false} ChargeRowsAppend(t: Tables, org: Id, now: Instant, a: seq<Charge>, b: seq<Charge>)
    ensures ChargeRows(t, org, now, a + b) == ChargeRows(t, org, now, a) + ChargeRows(t, org, now, b)
    decreases |a|
  {
    hide ChargeQualifies, Channel, SuggestedLevel;
    if a == [] {
      assert a + b == b;
    } else {
      assert (a + b)[1..] == a[1..] + b;
      ChargeRowsAppend(t, org, now, a[1..], b);
    }
  }

  lemma {:induction false} DueRowsLook(t: Tables, u: Tables, org: Id, now: Instant, ids: seq<Id>)
    requires u.leases == t.leases && u.tenants == t.tenants && forall id :: id in ids ==> id in t.leases
    requires forall id, due :: id in t.leases ==>
               UnpaidInMonthOf(u, id, t.leases[id], due) == UnpaidInMonthOf(t, id, t.leases[id], due)
    ensures LeaseDueRows(u, org, now, ids) == LeaseDueRows(t, org, now, ids)
    decreases |ids|
  {
    hide DueAt, UnpaidInMonthOf, Channel, MonthStart, MonthOf;
    if ids != [] {
      DueRowsLook(t, u, org, now, ids[1..]);
    }
  }

  lemma ClosedHoldsNothingBack(t: Tables, place: nat, c: Charge, id: Id, l: Lease, due: Instant)
    requires place <= |t.charges| && !IsUnpaid(c.status)
    ensures UnpaidInMonthOf(WithCharge(t, place, c), id, l, due) == UnpaidInMonthOf(t, id, l, due)
  {
    hide IsUnpaid, ThisMonth, NextMonth;
    assert t.charges == t.charges[..place] + t.charges[place..];
    assert forall x :: x in WithCharge(t, place, c).charges <==> x in t.charges || x == c;
  }

  lemma ClosedHasNoRow(t: Tables, place: nat, c: Charge, org: Id, now: Instant)
    requires place <= |t.charges| && !IsUnpaid(c.status)
    ensures var u := WithCharge(t, place, c); ChargeRows(u, org, now, u.charges) == ChargeRows(t, org, now, t.charges)
  {
    var u := WithCharge(t, place, c);
    var front, back := t.charges[..place], t.charges[place..];
    assert ChargeRows(t, org, now, [c]) == [] by {
      assert [c][1..] == [] && !ChargeQualifies(t, org, now, c);
      hide ChargeQualifies;
    }
    hide ChargeRows, IsUnpaid;
    ChargeRowsLook(t, u, org, now, u.charges);
    ChargeRowsAppend(t, org, now, front + [c], back);
    ChargeRowsAppend(t, org, now, front, [c]);
    ChargeRowsAppend(t, org, now, front, back);
    assert t.charges == front + back;
    var a, b := ChargeRows(t, org, now, front), ChargeRows(t, org, now, back);
    assert a + [] + b == a + b;
  }

  // A charge that is not blank and reads none of the four words, such as a paid one, changes no answer.
  lemma ClosedChargeChangesNothing(t: Tables, place: nat, c: Charge, org: Id, now: Instant)
    requires place <= |t.charges| && Listed(t) && Listed(WithCharge(t, place, c))
    requires Text.Lower(Text.TrimBlanks(c.status)) !in {"", "scheduled", "posted", "pending", "unpaid"}
    ensures ReminderCandidates(WithCharge(t, place, c), org, now) == ReminderCandidates(t, org, now)
  {
    assert !IsUnpaid(c.status);
    hide LeaseDueRows, ChargeRows, UnpaidInMonthOf, Listed, IsUnpaid, Text.Lower, Text.TrimBlanks;
    var u := WithCharge(t, place, c);
    forall id, due | id in t.leases
      ensures UnpaidInMonthOf(u, id, t.leases[id], due) == UnpaidInMonthOf(t, id, t.leases[id], due)
    {
      ClosedHoldsNothingBack(t, place, c, id, t.leases[id], due);
    }
    LeasesListed(t);
    DueRowsLook(t, u, org, now, t.leaseIds);
    ClosedHasNoRow(t, place, c, org, now);
  }

  lemma LeasesListed(t: Tables)
    requires Listed(t)
    ensures forall id :: id in t.leaseIds ==> id in t.leases
  {
  }
}
