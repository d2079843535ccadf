/** The monthly payment summary: a UNION of two grouped queries, de-duplicated by an outer GROUP
    BY over all columns, then merged month by month in Go, against sums over the raw rows. */
module PaymentSummary {
  import opened Common
  import opened Calendar
  import opened PaymentModel

  datatype Figure = Collected | PendingFigure | Outstanding

  datatype SummaryRow = SummaryRow(month: int, collected: int, pending: int, outstanding: int) {
    function Get(f: Figure): int {
      match f
      case Collected => collected
      case PendingFigure => pending
      case Outstanding => outstanding
    }
  }

  // The scope of one summary: organization, first instant of the window, and now().
  datatype Scope = Scope(org: Id, start: Instant, now: Instant)

  // ---- sums over the raw rows ----

  function PaidIn(payments: seq<Payment>, s: Scope, month: int, status: PaymentStatus): int {
    if payments == [] then 0
    else
      var p := payments[0];
      (if p.org == s.org && p.receivedAt >= s.start && MonthOf(p.receivedAt) == month && p.status == status then p.amount else 0)
      + PaidIn(payments[1..], s, month, status)
  }

  function DueIn(charges: seq<Charge>, s: Scope, month: int): int {
    if charges == [] then 0
    else
      var c := charges[0];
      (if c.org == s.org && c.dueAt >= s.start && MonthOf(c.dueAt) == month
          && c.dueAt <= s.now && (c.status == "scheduled" || c.status == "posted") then c.amount else 0)
      + DueIn(charges[1..], s, month)
  }

  function Direct(payments: seq<Payment>, charges: seq<Charge>, s: Scope, month: int, f: Figure): int {
    match f
    case Collected => PaidIn(payments, s, month, Completed)
    case PendingFigure => PaidIn(payments, s, month, Pending)
    case Outstanding => DueIn(charges, s, month)
  }

  // ---- the query ----

  function PaymentMonths(payments: seq<Payment>, s: Scope): set<int> {
    set p | p in payments && p.org == s.org && p.receivedAt >= s.start :: MonthOf(p.receivedAt)
  }

  function ChargeMonths(charges: seq<Charge>, s: Scope): set<int> {
    set c | c in charges && c.org == s.org && c.dueAt >= s.start :: MonthOf(c.dueAt)
  }

  function PaymentSide(payments: seq<Payment>, s: Scope): set<SummaryRow> {
    set m | m in PaymentMonths(payments, s) ::
      SummaryRow(m, PaidIn(payments, s, m, Completed), PaidIn(payments, s, m, Pending), 0)
  }

  function ChargeSide(charges: seq<Charge>, s: Scope): set<SummaryRow> {
    set m | m in ChargeMonths(charges, s) :: SummaryRow(m, 0, 0, DueIn(charges, s, m))
  }

  // GROUP BY over every column of the UNION ALL keeps one of two equal rows.
  predicate IsSummaryResult(rows: seq<SummaryRow>, payments: seq<Payment>, charges: seq<Charge>, s: Scope) {
    && (forall i, j :: 0 <= i < j < |rows| ==> rows[i] != rows[j])
    && (forall i, j :: 0 <= i < j < |rows| ==> rows[i].month <= rows[j].month)
    && (set r | r in rows) == PaymentSide(payments, s) + ChargeSide(charges, s)
  }

  predicate HasMonth(rows: seq<SummaryRow>, month: int) {
    exists r :: r in rows && r.month == month
  }

  // ---- the Go merge ----

  function TotalOf(rows: seq<SummaryRow>, month: int, f: Figure): int {
    if rows == [] then 0
    else
      var last := rows[|rows| - 1];
      TotalOf(rows[..|rows| - 1], month, f) + if last.month == month then last.Get(f) else 0
  }

  // Service.Summary: accumulate the rows by month, then list the accumulated points.
  method MergeByMonth(rows: seq<SummaryRow>) returns (items: seq<SummaryRow>)
    ensures forall i, j :: 0 <= i < j < |items| ==> items[i].month != items[j].month
    ensures forall m :: HasMonth(items, m) <==> HasMonth(rows, m)
    ensures forall item, f: Figure :: item in items ==> item.Get(f) == TotalOf(rows, item.month, f)
  {
    var byMonth: map<int, SummaryRow> := map[];
    for i := 0 to |rows|
      invariant forall m :: m in byMonth <==> HasMonth(rows[..i], m)
      invariant forall m :: m in byMonth ==> byMonth[m].month == m
      invariant forall m, f: Figure :: m in byMonth ==> byMonth[m].Get(f) == TotalOf(rows[..i], m, f)
      invariant forall m, f: Figure :: m !in byMonth ==> TotalOf(rows[..i], m, f) == 0
    {
      assert rows[..i + 1][..i] == rows[..i] && rows[..i + 1] == rows[..i] + [rows[i]];
      var r := rows[i];
      var p := if r.month in byMonth then byMonth[r.month] else SummaryRow(r.month, 0, 0, 0);
      byMonth := byMonth[r.month := SummaryRow(r.month, p.collected + r.collected, p.pending + r.pending, p.outstanding + r.outstanding)];
    }
    assert rows[..|rows|] == rows;
    items := ListPoints(byMonth);
    forall m ensures HasMonth(items, m) <==> HasMonth(rows, m) {
      if m in byMonth {
        assert byMonth[m] in items;
      }
    }
  }

  // The range loop over the accumulated map, in no particular order.
  method ListPoints(byMonth: map<int, SummaryRow>) returns (items: seq<SummaryRow>)
    requires forall m :: m in byMonth ==> byMonth[m].month == m
    ensures forall i, j :: 0 <= i < j < |items| ==> items[i].month != items[j].month
    ensures forall item :: item in items <==> item.month in byMonth && item == byMonth[item.month]
  {
    items := [];
    var rest := byMonth.Items;
    while rest != {}
      invariant rest <= byMonth.Items
      invariant forall item :: item in items <==>
                  item.month in byMonth && item == byMonth[item.month] && (item.month, item) !in rest
      invariant forall i, j :: 0 <= i < j < |items| ==> items[i].month != items[j].month
      decreases |rest|
    {
      var entry :| entry in rest;
      assert entry in byMonth.Items;
      assert entry.0 in byMonth && byMonth[entry.0] == entry.1 && entry.1.month == entry.0;
      assert forall i :: 0 <= i < |items| ==> items[i] in items && items[i].month != entry.0;
      items := items + [entry.1];
      rest := rest - {entry};
    }
  }

  // ---- the two agree ----

  // A sum over distinct rows of a month that can only be a or b.
  lemma {:induction false} TotalOfTwo(rows: seq<SummaryRow>, month: int, f: Figure, a: SummaryRow, b: SummaryRow)
    requires forall i, j :: 0 <= i < j < |rows| ==> rows[i] != rows[j]
    requires forall r :: r in rows && r.month == month ==> r == a || r == b
    requires a.month == month && b.month == month
    ensures TotalOf(rows, month, f) ==
            (if a in rows then a.Get(f) else 0) + (if b in rows && b != a then b.Get(f) else 0)
    decreases |rows|
  {
    if rows != [] {
      var n := |rows| - 1;
      var front := rows[..n];
      assert rows == front + [rows[n]];
      assert rows[n] !in front;
      TotalOfTwo(front, month, f, a, b);
    }
  }

  lemma MonthlyRowsAreTwo(payments: seq<Payment>, charges: seq<Charge>, s: Scope, rows: seq<SummaryRow>, month: int)
    requires IsSummaryResult(rows, payments, charges, s)
    ensures var a := SummaryRow(month, PaidIn(payments, s, month, Completed), PaidIn(payments, s, month, Pending), 0);
            var b := SummaryRow(month, 0, 0, DueIn(charges, s, month));
            && (forall r :: r in rows && r.month == month ==> r == a || r == b)
            && (month in PaymentMonths(payments, s) ==> a in rows)
            && (month in ChargeMonths(charges, s) ==> b in rows)
            && (a in rows ==> month in PaymentMonths(payments, s) || a == b)
            && (b in rows ==> month in ChargeMonths(charges, s) || a == b)
            && (HasMonth(rows, month) <==>
                  month in PaymentMonths(payments, s) || month in ChargeMonths(charges, s))
  {
    hide PaidIn, DueIn, PaymentMonths, ChargeMonths;
    assert forall r :: r in rows <==> r in PaymentSide(payments, s) + ChargeSide(charges, s) by {
      forall r ensures r in rows <==> r in (set x | x in rows) {}
    }
  }

  lemma NoPaymentsNoSum(payments: seq<Payment>, s: Scope, month: int, status: PaymentStatus)
    requires month !in PaymentMonths(payments, s)
    ensures PaidIn(payments, s, month, status) == 0
    decreases |payments|
  {
    if payments != [] {
      assert payments[0] in payments;
      assert PaymentMonths(payments[1..], s) <= PaymentMonths(payments, s);
      NoPaymentsNoSum(payments[1..], s, month, status);
    }
  }

  lemma NoChargesNoSum(charges: seq<Charge>, s: Scope, month: int)
    requires month !in ChargeMonths(charges, s)
    ensures DueIn(charges, s, month) == 0
    decreases |charges|
  {
    if charges != [] {
      assert charges[0] in charges;
      assert ChargeMonths(charges[1..], s) <= ChargeMonths(charges, s);
      NoChargesNoSum(charges[1..], s, month);
    }
  }

  // Main result: whatever the tables hold, the query's rows of a month add up to the direct sums
  // of the month, although the outer GROUP BY drops repeated rows; and a month has a row exactly
  // when it has a payment or a charge in the window.
  lemma SummaryIsExact(payments: seq<Payment>, charges: seq<Charge>, s: Scope, rows: seq<SummaryRow>, month: int, f: Figure)
    requires IsSummaryResult(rows, payments, charges, s)
    ensures TotalOf(rows, month, f) == Direct(payments, charges, s, month, f)
    ensures HasMonth(rows, month) <==>
            month in PaymentMonths(payments, s) || month in ChargeMonths(charges, s)
  {
    var a := SummaryRow(month, PaidIn(payments, s, month, Completed), PaidIn(payments, s, month, Pending), 0);
    var b := SummaryRow(month, 0, 0, DueIn(charges, s, month));
    MonthlyRowsAreTwo(payments, charges, s, rows, month);
    TotalOfTwo(rows, month, f, a, b);
    if month !in PaymentMonths(payments, s) {
      NoPaymentsNoSum(payments, s, month, Completed);
      NoPaymentsNoSum(payments, s, month, Pending);
    }
    if month !in ChargeMonths(charges, s) {
      NoChargesNoSum(charges, s, month);
    }
  }

  // The service's answer, end to end.
  method Summary(payments: seq<Payment>, charges: seq<Charge>, s: Scope, rows: seq<SummaryRow>) returns (items: seq<SummaryRow>)
    requires IsSummaryResult(rows, payments, charges, s)
    ensures forall i, j :: 0 <= i < j < |items| ==> items[i].month != items[j].month
    ensures forall m :: HasMonth(items, m) <==>
              m in PaymentMonths(payments, s) || m in ChargeMonths(charges, s)
    ensures forall item, f: Figure :: item in items ==> item.Get(f) == Direct(payments, charges, s, item.month, f)
  {
    hide IsSummaryResult, Direct, TotalOf;
    items := MergeByMonth(rows);
    forall m, f: Figure ensures TotalOf(rows, m, f) == Direct(payments, charges, s, m, f) {
      SummaryIsExact(payments, charges, s, rows, m, f);
    }
    forall m ensures HasMonth(rows, m) <==> m in PaymentMonths(payments, s) || m in ChargeMonths(charges, s) {
      SummaryIsExact(payments, charges, s, rows, m, Collected);
    }
  }

  // ---- what one row does to a figure ----

  lemma {:induction false} DueAppend(a: seq<Charge>, b: seq<Charge>, s: Scope, month: int)
    ensures DueIn(a + b, s, month) == DueIn(a, s, month) + DueIn(b, s, month)
    decreases |a|
  {
    if a == [] {
      assert a + b == b;
    } else {
      assert (a + b)[1..] == a[1..] + b;
      DueAppend(a[1..], b, s, month);
    }
  }

  lemma {:induction false} PaidAppend(a: seq<Payment>, b: seq<Payment>, s: Scope, month: int, status: PaymentStatus)
    ensures PaidIn(a + b, s, month, status) == PaidIn(a, s, month, status) + PaidIn(b, s, month, status)
    decreases |a|
  {
    if a == [] {
      assert a + b == b;
    } else {
      assert (a + b)[1..] == a[1..] + b;
      PaidAppend(a[1..], b, s, month, status);
    }
  }

  // The month an instant lies in, said with the first instants of months.
  lemma InMonth(t: Instant, month: int)
    ensures MonthOf(t) == month <==> MonthStart(month) <= t < MonthStart(month + 1)
  {
    hide MonthStart;
    if MonthStart(month) <= t < MonthStart(month + 1) {
      MonthOfUnique(month, t);
    }
  }

  lemma EmptyTables(s: Scope, month: int, f: Figure)
    ensures Direct([], [], s, month, f) == 0
  {
  }

  // A charge adds its amount to the outstanding figure of its month, and to no other figure, exactly
  // when it is the organization's, due in the window and by now, and scheduled or posted.
  lemma ChargeMoves(payments: seq<Payment>, charges: seq<Charge>, place: nat, c: Charge, s: Scope, month: int, f: Figure)
    requires place <= |charges|
    ensures Direct(payments, charges[..place] + [c] + charges[place..], s, month, f) - Direct(payments, charges, s, month, f) ==
            if && f == Outstanding && c.org == s.org && s.start <= c.dueAt <= s.now
               && MonthStart(month) <= c.dueAt < MonthStart(month + 1)
               && (c.status == "scheduled" || c.status == "posted")
            then c.amount else 0
  {
    hide MonthStart, MonthOf;
    InMonth(c.dueAt, month);
    assert charges == charges[..place] + charges[place..];
    DueAppend(charges[..place], charges[place..], s, month);
    DueAppend(charges[..place] + [c], charges[place..], s, month);
    DueAppend(charges[..place], [c], s, month);
    OneDue(c, s, month);
  }

  lemma OneDue(c: Charge, s: Scope, month: int)
    ensures DueIn([c], s, month) ==
            if c.org == s.org && s.start <= c.dueAt <= s.now && MonthOf(c.dueAt) == month && c.status in {"scheduled", "posted"}
            then c.amount else 0
  {
    assert [c][1..] == [];
  }

  // A payment adds its amount to its month's collected figure if it is completed and to the pending one
  // if it is pending, exactly when it is the organization's and received in the window, whenever that is.
  lemma PaymentMoves(payments: seq<Payment>, charges: seq<Charge>, place: nat, p: Payment, s: Scope, month: int, f: Figure)
    requires place <= |payments|
    ensures Direct(Inserted(payments, place, p), charges, s, month, f) - Direct(payments, charges, s, month, f) ==
            if && p.org == s.org && s.start <= p.receivedAt
               && MonthStart(month) <= p.receivedAt < MonthStart(month + 1)
               && ((f == Collected && p.status == Completed) || (f == PendingFigure && p.status == Pending))
            then p.amount else 0
  {
    hide MonthStart, MonthOf;
    InMonth(p.receivedAt, month);
    PaidMoves(payments, place, p, s, month, Completed);
    PaidMoves(payments, place, p, s, month, Pending);
  }

  lemma PaidMoves(payments: seq<Payment>, place: nat, p: Payment, s: Scope, month: int, status: PaymentStatus)
    requires place <= |payments|
    ensures PaidIn(Inserted(payments, place, p), s, month, status) - PaidIn(payments, s, month, status) ==
            if p.org == s.org && s.start <= p.receivedAt && MonthOf(p.receivedAt) == month && p.status == status
            then p.amount else 0
  {
    hide MonthOf;
    assert payments == payments[..place] + payments[place..];
    PaidAppend(payments[..place], payments[place..], s, month, status);
    PaidAppend(payments[..place] + [p], payments[place..], s, month, status);
    PaidAppend(payments[..place], [p], s, month, status);
    OnePaid(p, s, month, status);
  }

  lemma OnePaid(p: Payment, s: Scope, month: int, status: PaymentStatus)
    ensures PaidIn([p], s, month, status) ==
            if p.org == s.org && s.start <= p.receivedAt && MonthOf(p.receivedAt) == month && p.status == status
            then p.amount else 0
  {
    assert [p][1..] == [];
  }

  // A month is shown exactly when some payment of the organization was received in it, or some charge
  // was due in it, within the window; neither its status nor now() matters for that.
  lemma ShownMonths(payments: seq<Payment>, charges: seq<Charge>, s: Scope, month: int)
    ensures month in PaymentMonths(payments, s) <==>
            exists p :: p in payments && p.org == s.org && s.start <= p.receivedAt
              && MonthStart(month) <= p.receivedAt < MonthStart(month + 1)
    ensures month in ChargeMonths(charges, s) <==>
            exists c :: c in charges && c.org == s.org && s.start <= c.dueAt
              && MonthStart(month) <= c.dueAt < MonthStart(month + 1)
  {
    hide MonthStart, MonthOf;
    forall t: Instant ensures MonthOf(t) == month <==> MonthStart(month) <= t < MonthStart(month + 1) {
      InMonth(t, month);
    }
  }

  // ---- the window ----

  // The scope of a summary asked for at an instant: the window starts with its first month.
  function ScopeOf(org: Id, now: Instant, months: int): Scope {
    Scope(org, MonthStart(WindowMonth(now, months)), now)
  }

  // An instant lies in the window exactly when its month is the first one or a later one.
  lemma WindowExact(org: Id, now: Instant, months: int, t: Instant)
    ensures var s := ScopeOf(org, now, months);
            s.org == org && s.now == now && (s.start <= t <==> WindowMonth(now, months) <= MonthOf(t))
  {
    hide MonthStart, MonthOf, WindowMonth;
    var first, m := WindowMonth(now, months), MonthOf(t);
    if first <= m {
      MonthsIncreaseWeakly(first, m);
    } else {
      MonthsIncreaseWeakly(m + 1, first);
    }
  }

  // The month MonthlySummary starts at.
  function WindowMonth(now: Instant, months: int): int {
    var n := if months <= 0 then 6 else months;
    MonthOf(AddMonths(now, 1 - n))
  }

  // The window spans the requested number of months exactly when the month it should start in has
  // today's day number; otherwise AddDate overflows and the window is one month short.
  lemma WindowLength(now: Instant, months: int)
    ensures var n := if months <= 0 then 6 else months;
            var length := MonthOf(now) - WindowMonth(now, months) + 1;
            && (length == n <==> DayOfMonth(now) <= DaysInMonth(MonthOf(now) + (1 - n)))
            && (length == n || length == n - 1)
  {
    hide MonthOf, AddMonths, DayOfMonth, DaysInMonth;
    var back := if months <= 0 then -5 else 1 - months;
    AddMonthsLands(now, back);
    assert WindowMonth(now, months) == MonthOf(AddMonths(now, back));
  }

  // On 31 May 2025 a four-month summary covers three months: February has no 31st.
  lemma ShortWindow()
    ensures var now := MonthStart(12 * 2025 + 4) + 30 * DAY;
            MonthOf(now) - WindowMonth(now, 4) + 1 == 3
  {
    hide MonthOf, AddMonths, MonthStart;
    var may := 12 * 2025 + 4;
    DayLiesInMonth(may, 31, 0);
    WindowLength(MonthStart(may) + 30 * DAY, 4);
  }
}
