/** Tenant statements: what a tenant owes, how the service adds it up, and which requests move it. */
module Ledger {
  import opened Common
  import opened LeaseModel
  import opened PaymentModel
  import opened ProviderEvents
  import LeaseRanges
  import LeaseSteps
  import LeaseTheorems
  import Text

  datatype Kind = ChargeEntry | PaymentEntry
  datatype Entry = Entry(kind: Kind, reference: Id, amount: int, currency: string, occurredAt: Instant)

  // COALESCE(NULLIF(TRIM(currency), ''), 'USD')
  function Denomination(currency: string): string {
    var c := Text.TrimBlanks(currency);
    if c == "" then "USD" else c
  }

  // The join of both halves of the query: the row's lease, in the row's organization, is the tenant's.
  predicate LeaseOf(leases: map<Id, Lease>, lease: Id, rowOrg: Id, org: Id, tenant: Id) {
    rowOrg == org && lease in leases && leases[lease].org == org && leases[lease].tenant == tenant
  }

  // A charge is shown in its lease's currency, a payment in its own.
  function ChargeRow(leases: map<Id, Lease>, c: Charge): Entry {
    Entry(ChargeEntry, c.id, c.amount, Denomination(if c.lease in leases then leases[c.lease].currency else ""), c.dueAt)
  }

  function PaymentRow(p: Payment): Entry {
    Entry(PaymentEntry, p.id, p.amount, Denomination(p.currency), p.receivedAt)
  }

  function ChargeEntries(leases: map<Id, Lease>, charges: seq<Charge>, org: Id, tenant: Id): seq<Entry> {
    if charges == [] then []
    else
      var c := charges[0];
      (if LeaseOf(leases, c.lease, c.org, org, tenant) then [ChargeRow(leases, c)] else [])
      + ChargeEntries(leases, charges[1..], org, tenant)
  }

  function PaymentEntries(leases: map<Id, Lease>, payments: seq<Payment>, org: Id, tenant: Id): seq<Entry> {
    if payments == [] then []
    else
      var p := payments[0];
      (if LeaseOf(leases, p.lease, p.org, org, tenant) then [PaymentRow(p)] else [])
      + PaymentEntries(leases, payments[1..], org, tenant)
  }

  // StatementRows: the UNION ALL, arranged by occurred_at in whatever way breaks ties.
  ghost predicate IsStatement(rows: seq<Entry>, leases: map<Id, Lease>, charges: seq<Charge>, payments: seq<Payment>,
                              org: Id, tenant: Id)
  {
    && multiset(rows) == multiset(ChargeEntries(leases, charges, org, tenant) + PaymentEntries(leases, payments, org, tenant))
    && forall i, j :: 0 <= i < j < |rows| ==> rows[i].occurredAt <= rows[j].occurredAt
  }

  function TotalOf(rows: seq<Entry>, kind: Kind): int {
    if rows == [] then 0
    else TotalOf(rows[..|rows| - 1], kind) + if rows[|rows| - 1].kind == kind then rows[|rows| - 1].amount else 0
  }

  datatype Statement = Statement(totalCharges: int, totalPayments: int, outstanding: int)

  // The loop of TenantStatement.
  method TenantStatement(rows: seq<Entry>) returns (s: Statement)
    ensures s.totalCharges == TotalOf(rows, ChargeEntry) && s.totalPayments == TotalOf(rows, PaymentEntry)
    ensures s.outstanding == s.totalCharges - s.totalPayments
  {
    var charges, payments := 0, 0;
    for i := 0 to |rows|
      invariant charges == TotalOf(rows[..i], ChargeEntry) && payments == TotalOf(rows[..i], PaymentEntry)
    {
      assert rows[..i + 1][..i] == rows[..i];
      if rows[i].kind == ChargeEntry { charges := charges + rows[i].amount; }
      if rows[i].kind == PaymentEntry { payments := payments + rows[i].amount; }
    }
    assert rows[..|rows|] == rows;
    return Statement(charges, payments, charges - payments);
  }

  // ---- the direct meaning ----

  function Charged(leases: map<Id, Lease>, charges: seq<Charge>, org: Id, tenant: Id): int {
    if charges == [] then 0
    else (if LeaseOf(leases, charges[0].lease, charges[0].org, org, tenant) then charges[0].amount else 0)
         + Charged(leases, charges[1..], org, tenant)
  }

  // Payments count whatever their status.
  function Paid(leases: map<Id, Lease>, payments: seq<Payment>, org: Id, tenant: Id): int {
    if payments == [] then 0
    else (if LeaseOf(leases, payments[0].lease, payments[0].org, org, tenant) then payments[0].amount else 0)
         + Paid(leases, payments[1..], org, tenant)
  }

  function Owed(leases: map<Id, Lease>, charges: seq<Charge>, payments: seq<Payment>, org: Id, tenant: Id): int {
    Charged(leases, charges, org, tenant) - Paid(leases, payments, org, tenant)
  }

  // ---- totals do not depend on the order of the rows ----

  lemma {:induction false} TotalAppend(a: seq<Entry>, b: seq<Entry>, kind: Kind)
    ensures TotalOf(a + b, kind) == TotalOf(a, kind) + TotalOf(b, kind)
    decreases |b|
  {
    if b == [] {
      assert a + b == a;
    } else {
      var n := |b| - 1;
      assert (a + b)[..|a + b| - 1] == a + b[..n];
      TotalAppend(a, b[..n], kind);
    }
  }

  lemma TotalOne(e: Entry, kind: Kind)
    ensures TotalOf([e], kind) == if e.kind == kind then e.amount else 0
  {
    assert [e][..0] == [];
  }

  // Taking one occurrence of the same entry out of both arrangements leaves arrangements of the same.
  lemma TakenOut(a: seq<Entry>, b: seq<Entry>) returns (k: nat)
    requires multiset(a) == multiset(b) && a != []
    ensures k < |b| && b[k] == a[|a| - 1] && multiset(a[..|a| - 1]) == multiset(b[..k] + b[k + 1..])
  {
    var n := |a| - 1;
    var e := a[n];
    assert e in multiset(a) && e in b;
    k :| 0 <= k < |b| && b[k] == e;
    assert a == a[..n] + [e];
    assert b == b[..k] + [e] + b[k + 1..];
    assert multiset(a[..n]) == multiset(a) - multiset{e};
    assert multiset(b[..k] + b[k + 1..]) == multiset(b) - multiset{e};
  }

  lemma TotalAround(b: seq<Entry>, k: nat, kind: Kind)
    requires k < |b|
    ensures TotalOf(b, kind) == TotalOf(b[..k] + b[k + 1..], kind) + TotalOf([b[k]], kind)
  {
    hide TotalOf;
    assert b == b[..k] + [b[k]] + b[k + 1..];
    TotalAppend(b[..k] + [b[k]], b[k + 1..], kind);
    TotalAppend(b[..k], [b[k]], kind);
    TotalAppend(b[..k], b[k + 1..], kind);
  }

  lemma {:induction false} TotalOfPermutation(a: seq<Entry>, b: seq<Entry>, kind: Kind)
    requires multiset(a) == multiset(b)
    ensures TotalOf(a, kind) == TotalOf(b, kind)
    decreases |a|
  {
    assert |a| == |multiset(a)| == |multiset(b)| == |b|;
    if a != [] {
      hide TotalOf;
      var n := |a| - 1;
      var k := TakenOut(a, b);
      TotalOfPermutation(a[..n], b[..k] + b[k + 1..], kind);
      assert a[..n] + a[n + 1..] == a[..n];
      TotalAround(a, n, kind);
      TotalAround(b, k, kind);
    }
  }

  lemma {:induction false} ChargeEntriesTotal(leases: map<Id, Lease>, charges: seq<Charge>, org: Id, tenant: Id)
    ensures TotalOf(ChargeEntries(leases, charges, org, tenant), ChargeEntry) == Charged(leases, charges, org, tenant)
    ensures TotalOf(ChargeEntries(leases, charges, org, tenant), PaymentEntry) == 0
    decreases |charges|
  {
    hide TotalOf, LeaseOf;
    if charges == [] {
      NoEntries();
    } else {
      var c := charges[0];
      var rest := ChargeEntries(leases, charges[1..], org, tenant);
      ChargeEntriesTotal(leases, charges[1..], org, tenant);
      if LeaseOf(leases, c.lease, c.org, org, tenant) {
        var e := ChargeRow(leases, c);
        TotalAppend([e], rest, ChargeEntry);
        TotalAppend([e], rest, PaymentEntry);
        TotalOne(e, ChargeEntry);
        TotalOne(e, PaymentEntry);
      } else {
        assert ChargeEntries(leases, charges, org, tenant) == rest;
      }
    }
  }

  lemma {:induction false} PaymentEntriesTotal(leases: map<Id, Lease>, payments: seq<Payment>, org: Id, tenant: Id)
    ensures TotalOf(PaymentEntries(leases, payments, org, tenant), PaymentEntry) == Paid(leases, payments, org, tenant)
    ensures TotalOf(PaymentEntries(leases, payments, org, tenant), ChargeEntry) == 0
    decreases |payments|
  {
    hide TotalOf, LeaseOf;
    if payments == [] {
      NoEntries();
    } else {
      var p := payments[0];
      var rest := PaymentEntries(leases, payments[1..], org, tenant);
      PaymentEntriesTotal(leases, payments[1..], org, tenant);
      if LeaseOf(leases, p.lease, p.org, org, tenant) {
        var e := PaymentRow(p);
        TotalAppend([e], rest, ChargeEntry);
        TotalAppend([e], rest, PaymentEntry);
        TotalOne(e, ChargeEntry);
        TotalOne(e, PaymentEntry);
      } else {
        assert PaymentEntries(leases, payments, org, tenant) == rest;
      }
    }
  }

  lemma NoEntries()
    ensures forall kind: Kind :: TotalOf([], kind) == 0
  {
  }

  // Main result: the statement's outstanding amount is what the tenant's ledger rows come to,
  // in whatever order the database returned them.
  lemma StatementIsExact(rows: seq<Entry>, leases: map<Id, Lease>, charges: seq<Charge>, payments: seq<Payment>, org: Id, tenant: Id)
    requires IsStatement(rows, leases, charges, payments, org, tenant)
    ensures TotalOf(rows, ChargeEntry) - TotalOf(rows, PaymentEntry) == Owed(leases, charges, payments, org, tenant)
  {
    hide TotalOf, ChargeEntries, PaymentEntries, Charged, Paid;
    var cs, ps := ChargeEntries(leases, charges, org, tenant), PaymentEntries(leases, payments, org, tenant);
    TotalOfPermutation(rows, cs + ps, ChargeEntry);
    TotalOfPermutation(rows, cs + ps, PaymentEntry);
    TotalAppend(cs, ps, ChargeEntry);
    TotalAppend(cs, ps, PaymentEntry);
    ChargeEntriesTotal(leases, charges, org, tenant);
    PaymentEntriesTotal(leases, payments, org, tenant);
  }

  // ---- when the outstanding amount is in one currency ----

  // What a statement shows of a charge and of a payment.
  lemma EntriesSay(leases: map<Id, Lease>, c: Charge, p: Payment)
    ensures var (owed, paid) := (ChargeRow(leases, c), PaymentRow(p));
            && owed.kind == ChargeEntry && owed.reference == c.id && owed.amount == c.amount && owed.occurredAt == c.dueAt
            && paid.kind == PaymentEntry && paid.reference == p.id && paid.amount == p.amount && paid.occurredAt == p.receivedAt
  {
  }

  lemma DenominationExact(currency: string)
    ensures Denomination(currency) == if Text.TrimBlanks(currency) == "" then "USD" else Text.TrimBlanks(currency)
  {
  }

  predicate InCurrency(rows: seq<Entry>, currency: string) {
    forall e :: e in rows ==> e.currency == currency
  }

  function TotalIn(rows: seq<Entry>, kind: Kind, currency: string): int {
    if rows == [] then 0
    else
      var e := rows[|rows| - 1];
      TotalIn(rows[..|rows| - 1], kind, currency) + if e.kind == kind && e.currency == currency then e.amount else 0
  }

  lemma {:induction false} OneCurrencyTotal(rows: seq<Entry>, kind: Kind, currency: string)
    requires InCurrency(rows, currency)
    ensures TotalOf(rows, kind) == TotalIn(rows, kind, currency)
    decreases |rows|
  {
    if rows != [] {
      assert rows[|rows| - 1] in rows;
      OneCurrencyTotal(rows[..|rows| - 1], kind, currency);
    }
  }

  lemma {:induction false} ChargeEntriesAre(leases: map<Id, Lease>, charges: seq<Charge>, org: Id, tenant: Id, e: Entry)
    ensures e in ChargeEntries(leases, charges, org, tenant) <==>
            exists c :: c in charges && LeaseOf(leases, c.lease, c.org, org, tenant) && e == ChargeRow(leases, c)
    decreases |charges|
  {
    hide LeaseOf, ChargeRow;
    if charges != [] {
      assert charges == [charges[0]] + charges[1..];
      ChargeEntriesAre(leases, charges[1..], org, tenant, e);
    }
  }

  lemma {:induction false} PaymentEntriesAre(leases: map<Id, Lease>, payments: seq<Payment>, org: Id, tenant: Id, e: Entry)
    ensures e in PaymentEntries(leases, payments, org, tenant) <==>
            exists p :: p in payments && LeaseOf(leases, p.lease, p.org, org, tenant) && e == PaymentRow(p)
    decreases |payments|
  {
    hide LeaseOf, PaymentRow;
    if payments != [] {
      assert payments == [payments[0]] + payments[1..];
      PaymentEntriesAre(leases, payments[1..], org, tenant, e);
    }
  }

  // Every charged lease and every payment of the tenant is in the currency, blank ones being in dollars.
  predicate LedgerIn(leases: map<Id, Lease>, charges: seq<Charge>, payments: seq<Payment>, org: Id, tenant: Id, currency: string) {
    && (forall c :: c in charges && LeaseOf(leases, c.lease, c.org, org, tenant) ==>
          Denomination(leases[c.lease].currency) == currency)
    && (forall p :: p in payments && LeaseOf(leases, p.lease, p.org, org, tenant) ==> Denomination(p.currency) == currency)
  }

  // A statement adds up rows of one currency exactly when the tenant's ledger is in that currency, and
  // then its outstanding amount is the difference of that currency's totals.
  lemma StatementCurrency(rows: seq<Entry>, leases: map<Id, Lease>, charges: seq<Charge>, payments: seq<Payment>,
                          org: Id, tenant: Id, currency: string)
    requires IsStatement(rows, leases, charges, payments, org, tenant)
    ensures InCurrency(rows, currency) <==> LedgerIn(leases, charges, payments, org, tenant, currency)
    ensures InCurrency(rows, currency) ==>
              TotalIn(rows, ChargeEntry, currency) - TotalIn(rows, PaymentEntry, currency) ==
              Owed(leases, charges, payments, org, tenant)
  {
    hide ChargeEntries, PaymentEntries, Denomination, TotalIn, TotalOf, Owed;
    var cs, ps := ChargeEntries(leases, charges, org, tenant), PaymentEntries(leases, payments, org, tenant);
    forall e ensures e in rows <==> e in cs || e in ps {
      assert e in multiset(rows) <==> e in multiset(cs + ps);
    }
    forall e ensures e in cs <==> exists c :: c in charges && LeaseOf(leases, c.lease, c.org, org, tenant) && e == ChargeRow(leases, c) {
      ChargeEntriesAre(leases, charges, org, tenant, e);
    }
    forall e ensures e in ps <==> exists p :: p in payments && LeaseOf(leases, p.lease, p.org, org, tenant) && e == PaymentRow(p) {
      PaymentEntriesAre(leases, payments, org, tenant, e);
    }
    assert forall c :: c in charges && LeaseOf(leases, c.lease, c.org, org, tenant) ==> ChargeRow(leases, c) in rows;
    assert forall p :: p in payments && LeaseOf(leases, p.lease, p.org, org, tenant) ==> PaymentRow(p) in rows;
    StatementIsExact(rows, leases, charges, payments, org, tenant);
    if InCurrency(rows, currency) {
      OneCurrencyTotal(rows, ChargeEntry, currency);
      OneCurrencyTotal(rows, PaymentEntry, currency);
    }
  }

  // ---- what moves a tenant's balance ----

  lemma {:induction false} PaidAfterInsert(leases: map<Id, Lease>, payments: seq<Payment>, place: nat, p: Payment, org: Id, tenant: Id)
    requires place <= |payments|
    ensures Paid(leases, Inserted(payments, place, p), org, tenant) ==
            Paid(leases, payments, org, tenant) + if LeaseOf(leases, p.lease, p.org, org, tenant) then p.amount else 0
    decreases place
  {
    var after := Inserted(payments, place, p);
    if place == 0 {
      assert after[1..] == payments;
    } else {
      assert after[1..] == Inserted(payments[1..], place - 1, p);
      PaidAfterInsert(leases, payments[1..], place - 1, p, org, tenant);
    }
  }

  // A new payment, whatever its status, lowers what its lease's tenant owes in the lease's organization
  // by exactly its amount, and nobody else's balance moves.
  lemma PaymentLowersOneBalance(leases: map<Id, Lease>, charges: seq<Charge>, payments: seq<Payment>,
                                place: nat, p: Payment, org: Id, tenant: Id)
    requires place <= |payments|
    ensures Owed(leases, charges, Inserted(payments, place, p), org, tenant) ==
            Owed(leases, charges, payments, org, tenant)
            - if org == p.org && p.lease in leases && leases[p.lease].org == org && leases[p.lease].tenant == tenant
              then p.amount else 0
  {
    PaidAfterInsert(leases, payments, place, p, org, tenant);
  }

  lemma {:induction false} ChargedAppend(leases: map<Id, Lease>, a: seq<Charge>, b: seq<Charge>, org: Id, tenant: Id)
    ensures Charged(leases, a + b, org, tenant) == Charged(leases, a, org, tenant) + Charged(leases, b, org, tenant)
    decreases |a|
  {
    if a == [] {
      assert a + b == b;
    } else {
      assert (a + b)[1..] == a[1..] + b;
      ChargedAppend(leases, a[1..], b, org, tenant);
    }
  }

  // A new charge raises that one balance in the same way; and with neither rows nothing is owed.
  lemma ChargeRaisesOneBalance(leases: map<Id, Lease>, charges: seq<Charge>, payments: seq<Payment>,
                               place: nat, c: Charge, org: Id, tenant: Id)
    requires place <= |charges|
    ensures Owed(leases, charges[..place] + [c] + charges[place..], payments, org, tenant) ==
            Owed(leases, charges, payments, org, tenant)
            + if org == c.org && c.lease in leases && leases[c.lease].org == org && leases[c.lease].tenant == tenant
              then c.amount else 0
    ensures Owed(leases, [], [], org, tenant) == 0
  {
    assert charges == charges[..place] + charges[place..];
    ChargedAppend(leases, charges[..place], charges[place..], org, tenant);
    ChargedAppend(leases, charges[..place] + [c], charges[place..], org, tenant);
    ChargedAppend(leases, charges[..place], [c], org, tenant);
    assert [c][1..] == [];
  }

  lemma {:induction false} PaidBySameMoney(leases: map<Id, Lease>, a: seq<Payment>, b: seq<Payment>, org: Id, tenant: Id)
    requires |a| == |b| && forall i :: 0 <= i < |a| ==> SameMoney(a[i], b[i])
    ensures Paid(leases, a, org, tenant) == Paid(leases, b, org, tenant)
    decreases |a|
  {
    if a != [] {
      PaidBySameMoney(leases, a[1..], b[1..], org, tenant);
    }
  }

  // No sequence of provider events moves any tenant's balance: a payment lowers it from the day
  // it is initiated, and goes on doing so when it fails.
  lemma EventsMoveNoBalance(leases: map<Id, Lease>, charges: seq<Charge>, payments: seq<Payment>,
                            events: seq<ProviderEvent>, org: Id, tenant: Id)
    ensures Owed(leases, charges, ApplyAll(payments, events), org, tenant) == Owed(leases, charges, payments, org, tenant)
  {
    EventsKeepMoney(payments, events);
    PaidBySameMoney(leases, payments, ApplyAll(payments, events), org, tenant);
  }

  // What a tenant's payments come to that are completed, or that are not.
  function PaidWhere(leases: map<Id, Lease>, payments: seq<Payment>, completed: bool, org: Id, tenant: Id): int {
    if payments == [] then 0
    else (if LeaseOf(leases, payments[0].lease, payments[0].org, org, tenant) && (payments[0].status == Completed) == completed
          then payments[0].amount else 0)
         + PaidWhere(leases, payments[1..], completed, org, tenant)
  }

  lemma {:induction false} PaidSplits(leases: map<Id, Lease>, payments: seq<Payment>, org: Id, tenant: Id)
    ensures Paid(leases, payments, org, tenant) ==
            PaidWhere(leases, payments, true, org, tenant) + PaidWhere(leases, payments, false, org, tenant)
    decreases |payments|
  {
    if payments != [] {
      PaidSplits(leases, payments[1..], org, tenant);
    }
  }

  // Every payment of the tenant is completed.
  predicate AllCompleted(leases: map<Id, Lease>, payments: seq<Payment>, org: Id, tenant: Id) {
    forall p :: p in payments && LeaseOf(leases, p.lease, p.org, org, tenant) ==> p.status == Completed
  }

  lemma {:induction false} UnpaidIsPositive(leases: map<Id, Lease>, payments: seq<Payment>, org: Id, tenant: Id)
    requires forall p :: p in payments ==> p.amount > 0
    ensures PaidWhere(leases, payments, false, org, tenant) >= 0
    ensures PaidWhere(leases, payments, false, org, tenant) == 0 <==> AllCompleted(leases, payments, org, tenant)
    decreases |payments|
  {
    if payments != [] {
      assert payments == [payments[0]] + payments[1..];
      UnpaidIsPositive(leases, payments[1..], org, tenant);
    }
  }

  // After any provider events, a statement shows the charges less the money received exactly when the
  // tenant's payments that are not completed come to nothing: with the positive amounts the requests
  // demand, exactly when every payment of the tenant is completed.
  lemma StatementIsMoneyReceived(rows: seq<Entry>, leases: map<Id, Lease>, charges: seq<Charge>, payments: seq<Payment>,
                                 events: seq<ProviderEvent>, org: Id, tenant: Id)
    requires IsStatement(rows, leases, charges, ApplyAll(payments, events), org, tenant)
    ensures var after := ApplyAll(payments, events);
            var right := TotalOf(rows, ChargeEntry) - TotalOf(rows, PaymentEntry) ==
                         Charged(leases, charges, org, tenant) - PaidWhere(leases, after, true, org, tenant);
            && (right <==> PaidWhere(leases, after, false, org, tenant) == 0)
            && ((forall p :: p in payments ==> p.amount > 0) ==> (right <==> AllCompleted(leases, after, org, tenant)))
  {
    hide IsStatement, TotalOf, Charged, Paid, PaidWhere, AllCompleted, ApplyAll;
    var after := ApplyAll(payments, events);
    StatementIsExact(rows, leases, charges, after, org, tenant);
    PaidSplits(leases, after, org, tenant);
    EventsKeepMoney(payments, events);
    if forall p :: p in payments ==> p.amount > 0 {
      assert forall i :: 0 <= i < |after| ==> after[i].amount == payments[i].amount && payments[i] in payments;
      UnpaidIsPositive(leases, after, org, tenant);
    }
  }

  // A tenant charged 100 dollars with a pending payment of 100 shillings: the statement shows nothing
  // outstanding, though no money was received and the two are not of one currency.
  lemma StatementCanMislead() returns (leases: map<Id, Lease>, charges: seq<Charge>, payments: seq<Payment>, rows: seq<Entry>)
    ensures IsStatement(rows, leases, charges, payments, "org", "tenant")
    ensures TotalOf(rows, ChargeEntry) - TotalOf(rows, PaymentEntry) == 0
    ensures Charged(leases, charges, "org", "tenant") == 100 && PaidWhere(leases, payments, true, "org", "tenant") == 0
    ensures forall currency :: !InCurrency(rows, currency)
  {
    var l := Lease("org", "unit", "tenant", LeaseRanges.Range(0, None), 100, None, "USD", None, None, "", Active, true, 0, None);
    var c := Charge("c", "org", "l", 100, 0, "posted");
    var p := Payment("p", "org", "l", 100, "KES", 0, "cash", Pending, "", "pesapal", "", "");
    leases, charges, payments := map["l" := l], [c], [p];
    var owed, paid := ChargeRow(leases, c), PaymentRow(p);
    rows := [owed, paid];
    assert leases["l"] == l;
    OneCharge(leases, c, "org", "tenant");
    OnePayment(leases, p, "org", "tenant");
    assert Denomination("USD") == "USD" && Denomination("KES") == "KES";
    hide ChargeEntries, PaymentEntries, Charged, Paid, PaidWhere, Denomination, TotalOf;
    assert rows == [owed] + [paid];
    StatementIsExact(rows, leases, charges, payments, "org", "tenant");
    assert rows[0] in rows && rows[1] in rows;
  }

  lemma OneCharge(leases: map<Id, Lease>, c: Charge, org: Id, tenant: Id)
    requires LeaseOf(leases, c.lease, c.org, org, tenant)
    ensures ChargeEntries(leases, [c], org, tenant) == [ChargeRow(leases, c)] && Charged(leases, [c], org, tenant) == c.amount
  {
    assert [c][1..] == [];
    hide ChargeRow;
    assert ChargeEntries(leases, [], org, tenant) == [] && Charged(leases, [], org, tenant) == 0;
  }

  lemma OnePayment(leases: map<Id, Lease>, p: Payment, org: Id, tenant: Id)
    requires LeaseOf(leases, p.lease, p.org, org, tenant)
    ensures PaymentEntries(leases, [p], org, tenant) == [PaymentRow(p)] && Paid(leases, [p], org, tenant) == p.amount
    ensures p.status != Completed ==> PaidWhere(leases, [p], true, org, tenant) == 0
  {
    assert [p][1..] == [];
    hide PaymentRow;
    assert PaymentEntries(leases, [], org, tenant) == [] && Paid(leases, [], org, tenant) == 0;
  }

  // Every ledger row names a stored lease of its organization, as the foreign keys demand.
  predicate Anchored(leases: map<Id, Lease>, charges: seq<Charge>, payments: seq<Payment>) {
    && (forall c :: c in charges ==> c.lease in leases && leases[c.lease].org == c.org)
    && (forall p :: p in payments ==> p.lease in leases && leases[p.lease].org == p.org)
  }

  lemma {:induction false} LedgerOnSameOwners(a: map<Id, Lease>, b: map<Id, Lease>, charges: seq<Charge>, payments: seq<Payment>,
                                              org: Id, tenant: Id)
    requires Anchored(a, charges, payments)
    requires forall id :: id in a ==> id in b && b[id].org == a[id].org && b[id].tenant == a[id].tenant
    ensures Owed(a, charges, payments, org, tenant) == Owed(b, charges, payments, org, tenant)
    decreases |charges| + |payments|
  {
    if charges != [] {
      assert charges[0] in charges;
      LedgerOnSameOwners(a, b, charges[1..], payments, org, tenant);
    } else if payments != [] {
      assert payments[0] in payments;
      LedgerOnSameOwners(a, b, charges, payments[1..], org, tenant);
    }
  }

  // No run of lease requests moves any tenant's balance or cuts a ledger row from its lease.
  lemma {:induction false} LeaseRunsMoveNoBalance(enforced: bool, t: LeaseSteps.Tables, events: seq<LeaseSteps.Event>,
                                                  charges: seq<Charge>, payments: seq<Payment>, org: Id, tenant: Id)
    requires Anchored(t.leases, charges, payments)
    ensures var after := LeaseSteps.Run(enforced, t, events).leases;
            && Anchored(after, charges, payments)
            && Owed(after, charges, payments, org, tenant) == Owed(t.leases, charges, payments, org, tenant)
    decreases |events|
  {
    hide LeaseSteps.Next, Owed;
    if events != [] {
      var (ctx, step) := (events[0].ctx, events[0].step);
      var next := LeaseSteps.Next(enforced, t, ctx, step).0;
      LeaseTheorems.LeasesStayPut(enforced, t, ctx, step);
      LedgerOnSameOwners(t.leases, next.leases, charges, payments, org, tenant);
      LeaseRunsMoveNoBalance(enforced, next, events[1..], charges, payments, org, tenant);
    }
  }
}
