/** Lease rows, patch requests, and the two ways the service turns a patch into a row:
    the merged copy it validates and the column map it sends to the database. */
module LeaseModel {
  import opened Common
  import opened LeaseRanges
  import opened Text

  datatype LeaseStatus = Draft | PendingApproval | Active | Rejected | Ended | Cancelled

  datatype Lease = Lease(
    org: Id, unit: Id, tenant: Id,
    range: Range,
    rent: int, deposit: Option<int>, currency: string,
    dueDay: Option<int>, amountOverride: Option<int>, channel: string,
    status: LeaseStatus, isPrimary: bool,
    updatedAt: Instant, updatedBy: Option<Id>)

  // The leases the EXCLUDE constraint and the overlap check are about.
  predicate IsLive(l: Lease) {
    l.status == Active && l.isPrimary
  }

  function ParseLeaseStatus(s: string): Option<LeaseStatus> {
    var v := TrimSpace(Lower(s));
    if v == "draft" then Some(Draft)
    else if v == "pending_approval" then Some(PendingApproval)
    else if v == "active" then Some(Active)
    else if v == "rejected" then Some(Rejected)
    else if v == "ended" then Some(Ended)
    else if v == "cancelled" then Some(Cancelled)
    else None
  }

  datatype PatchRequest = PatchRequest(
    start: Option<Instant>, end: Option<Instant>,
    rent: Option<int>, deposit: Option<int>, currency: Option<string>,
    status: Option<string>, isPrimary: Option<bool>,
    dueDay: Option<int>, amountOverride: Option<int>, channel: Option<string>)

  // Patch refuses a status it cannot parse before it merges anything.
  predicate StatusAccepted(req: PatchRequest) {
    req.status.Some? ==> ParseLeaseStatus(TrimSpace(req.status.value)).Some?
  }

  function GetOr<T>(o: Option<T>, default: T): T {
    if o.Some? then o.value else default
  }

  function MergeLeasePatch(cur: Lease, req: PatchRequest): Lease {
    cur.(
      range := Range(GetOr(req.start, cur.range.start), if req.end.Some? then req.end else cur.range.end),
      rent := GetOr(req.rent, cur.rent),
      deposit := if req.deposit.Some? then req.deposit else cur.deposit,
      currency := if req.currency.Some? then Upper(TrimSpace(req.currency.value)) else cur.currency,
      status :=
        if req.status.Some? then GetOr(ParseLeaseStatus(TrimSpace(req.status.value)), cur.status) else cur.status,
      dueDay := if req.dueDay.Some? then req.dueDay else cur.dueDay,
      amountOverride := if req.amountOverride.Some? then req.amountOverride else cur.amountOverride,
      channel := if req.channel.Some? then TrimSpace(Lower(req.channel.value)) else cur.channel,
      isPrimary := GetOr(req.isPrimary, cur.isPrimary))
  }

  // The columns an UPDATE may name. No request path names organization, unit or tenant.
  datatype Column =
    | StartDate | EndDate | MonthlyRent | Deposit | CurrencyCode | StatusColumn
    | BillingDueDay | BillingOverride | ReminderChannel | IsPrimary | UpdatedBy

  datatype Cell = Time(t: Instant) | Number(n: int) | Words(s: string) | State(status: LeaseStatus) | Flag(b: bool)

  type Updates = map<Column, Cell>

  function TimeIn(u: Updates, c: Column, default: Option<Instant>): Option<Instant> {
    if c in u && u[c].Time? then Some(u[c].t) else default
  }

  function NumberIn(u: Updates, c: Column, default: Option<int>): Option<int> {
    if c in u && u[c].Number? then Some(u[c].n) else default
  }

  function WordsIn(u: Updates, c: Column, default: Option<string>): Option<string> {
    if c in u && u[c].Words? then Some(u[c].s) else default
  }

  // What an UPDATE with these columns makes of a row.
  function ApplyUpdates(l: Lease, u: Updates): Lease {
    l.(
      range := Range(GetOr(TimeIn(u, StartDate, None), l.range.start), TimeIn(u, EndDate, l.range.end)),
      rent := GetOr(NumberIn(u, MonthlyRent, None), l.rent),
      deposit := NumberIn(u, Deposit, l.deposit),
      currency := GetOr(WordsIn(u, CurrencyCode, None), l.currency),
      status := if StatusColumn in u && u[StatusColumn].State? then u[StatusColumn].status else l.status,
      dueDay := NumberIn(u, BillingDueDay, l.dueDay),
      amountOverride := NumberIn(u, BillingOverride, l.amountOverride),
      channel := GetOr(WordsIn(u, ReminderChannel, None), l.channel),
      isPrimary := if IsPrimary in u && u[IsPrimary].Flag? then u[IsPrimary].b else l.isPrimary,
      updatedBy := WordsIn(u, UpdatedBy, l.updatedBy))
  }

  // The merged row, stamped with the acting user as the UPDATE stamps it.
  function PatchedRow(cur: Lease, req: PatchRequest, user: Id): Lease {
    var merged := MergeLeasePatch(cur, req);
    if user == "" then merged else merged.(updatedBy := Some(user))
  }

  predicate PatchIsEmpty(req: PatchRequest) {
    && req.start.None? && req.end.None? && req.rent.None? && req.deposit.None? && req.currency.None?
    && req.status.None? && req.isPrimary.None? && req.dueDay.None? && req.amountOverride.None? && req.channel.None?
  }

  // What a patch puts into a column, if anything.
  function ColumnOf(req: PatchRequest, user: Id, c: Column): Option<Cell> {
    match c
    case StartDate => if req.start.Some? then Some(Time(req.start.value)) else None
    case EndDate => if req.end.Some? then Some(Time(req.end.value)) else None
    case MonthlyRent => if req.rent.Some? then Some(Number(req.rent.value)) else None
    case Deposit => if req.deposit.Some? then Some(Number(req.deposit.value)) else None
    case CurrencyCode => if req.currency.Some? then Some(Words(Upper(TrimSpace(req.currency.value)))) else None
    case StatusColumn =>
      if req.status.None? then None
      else
        var status := ParseLeaseStatus(TrimSpace(req.status.value));
        if status.Some? then Some(State(status.value)) else None
    case BillingDueDay => if req.dueDay.Some? then Some(Number(req.dueDay.value)) else None
    case BillingOverride => if req.amountOverride.Some? then Some(Number(req.amountOverride.value)) else None
    case ReminderChannel => if req.channel.Some? then Some(Words(TrimSpace(Lower(req.channel.value)))) else None
    case IsPrimary => if req.isPrimary.Some? then Some(Flag(req.isPrimary.value)) else None
    case UpdatedBy => if user != "" then Some(Words(user)) else None
  }

  function CellIn(u: Updates, c: Column): Option<Cell> {
    if c in u then Some(u[c]) else None
  }

  ghost predicate IsPatchMap(u: Updates, req: PatchRequest, user: Id) {
    forall c: Column :: CellIn(u, c) == ColumnOf(req, user, c)
  }

  // The order in which the columns are filled.
  function Rank(c: Column): nat {
    match c
    case StartDate => 0 case EndDate => 1 case MonthlyRent => 2 case Deposit => 3
    case CurrencyCode => 4 case StatusColumn => 5 case BillingDueDay => 6 case BillingOverride => 7
    case ReminderChannel => 8 case IsPrimary => 9 case UpdatedBy => 10
  }

  // The map holds what the patch puts into the first columns, and no other column.
  ghost predicate Filled(u: Updates, req: PatchRequest, user: Id, count: nat) {
    forall c: Column :: CellIn(u, c) == if Rank(c) < count then ColumnOf(req, user, c) else None
  }

  lemma NothingFilled(req: PatchRequest, user: Id)
    ensures Filled(map[], req, user, 0)
  {
  }

  lemma AllFilled(u: Updates, req: PatchRequest, user: Id)
    requires Filled(u, req, user, 11)
    ensures IsPatchMap(u, req, user)
  {
    hide ColumnOf;
    forall c: Column ensures CellIn(u, c) == ColumnOf(req, user, c) {
      assert Rank(c) < 11;
    }
  }

  lemma FillColumn(u: Updates, next: Updates, req: PatchRequest, user: Id, c: Column)
    requires Filled(u, req, user, Rank(c))
    requires next == if ColumnOf(req, user, c).Some? then u[c := ColumnOf(req, user, c).value] else u
    ensures Filled(next, req, user, Rank(c) + 1)
  {
    hide ColumnOf;
    forall d: Column
      ensures CellIn(next, d) == if Rank(d) < Rank(c) + 1 then ColumnOf(req, user, d) else None
    {
      assert CellIn(u, d) == if Rank(d) < Rank(c) then ColumnOf(req, user, d) else None;
    }
  }

  lemma PatchMapColumn(u: Updates, req: PatchRequest, user: Id, c: Column)
    requires IsPatchMap(u, req, user)
    ensures c in u <==> ColumnOf(req, user, c).Some?
    ensures c in u ==> u[c] == ColumnOf(req, user, c).value
  {
    assert CellIn(u, c) == ColumnOf(req, user, c);
  }

  lemma PatchMapApplies(u: Updates, req: PatchRequest, user: Id, cur: Lease)
    requires IsPatchMap(u, req, user)
    ensures ApplyUpdates(cur, u) == PatchedRow(cur, req, user)
  {
    hide IsPatchMap, TrimSpace, Upper, Lower, ParseLeaseStatus;
    var row, want := ApplyUpdates(cur, u), PatchedRow(cur, req, user);
    assert row.range == want.range by {
      PatchMapColumn(u, req, user, StartDate);
      PatchMapColumn(u, req, user, EndDate);
    }
    assert row.rent == want.rent by { PatchMapColumn(u, req, user, MonthlyRent); }
    assert row.deposit == want.deposit by { PatchMapColumn(u, req, user, Deposit); }
    assert row.currency == want.currency by { PatchMapColumn(u, req, user, CurrencyCode); }
    assert row.status == want.status by { PatchMapColumn(u, req, user, StatusColumn); }
    assert row.dueDay == want.dueDay by { PatchMapColumn(u, req, user, BillingDueDay); }
    assert row.amountOverride == want.amountOverride by { PatchMapColumn(u, req, user, BillingOverride); }
    assert row.channel == want.channel by { PatchMapColumn(u, req, user, ReminderChannel); }
    assert row.isPrimary == want.isPrimary by { PatchMapColumn(u, req, user, IsPrimary); }
    assert row.updatedBy == want.updatedBy by { PatchMapColumn(u, req, user, UpdatedBy); }
  }

  lemma PatchMapEmpty(u: Updates, req: PatchRequest, user: Id)
    requires IsPatchMap(u, req, user) && StatusAccepted(req)
    ensures u == map[] <==> PatchIsEmpty(req) && user == ""
  {
    hide IsPatchMap, TrimSpace, Upper, Lower, ParseLeaseStatus;
    forall c: Column
      ensures c in u <==> ColumnOf(req, user, c).Some?
    {
      PatchMapColumn(u, req, user, c);
    }
    assert (StartDate in u || EndDate in u || MonthlyRent in u || Deposit in u || CurrencyCode in u || StatusColumn in u
            || BillingDueDay in u || BillingOverride in u || ReminderChannel in u || IsPrimary in u || UpdatedBy in u)
           <==> !(PatchIsEmpty(req) && user == "");
  }

  // The column map and the merged copy are built independently; applied to any row, the map
  // gives exactly the copy that was validated, up to the audit column.
  method LeaseToUpdates(req: PatchRequest, user: Id) returns (u: Updates)
    requires StatusAccepted(req)
    ensures forall cur: Lease :: ApplyUpdates(cur, u) == PatchedRow(cur, req, user)
    ensures u == map[] <==> PatchIsEmpty(req) && user == ""
  {
    hide TrimSpace, Upper, Lower, ParseLeaseStatus, ApplyUpdates, PatchedRow, Filled;
    u := map[];
    NothingFilled(req, user);
    ghost var before := u;
    if req.start.Some? { u := u[StartDate := Time(req.start.value)]; }
    FillColumn(before, u, req, user, StartDate);
    before := u;
    if req.end.Some? { u := u[EndDate := Time(req.end.value)]; }
    FillColumn(before, u, req, user, EndDate);
    before := u;
    if req.rent.Some? { u := u[MonthlyRent := Number(req.rent.value)]; }
    FillColumn(before, u, req, user, MonthlyRent);
    before := u;
    if req.deposit.Some? { u := u[Deposit := Number(req.deposit.value)]; }
    FillColumn(before, u, req, user, Deposit);
    before := u;
    if req.currency.Some? { u := u[CurrencyCode := Words(Upper(TrimSpace(req.currency.value)))]; }
    FillColumn(before, u, req, user, CurrencyCode);
    before := u;
    if req.status.Some? {
      var status := ParseLeaseStatus(TrimSpace(req.status.value));
      if status.Some? { u := u[StatusColumn := State(status.value)]; }
    }
    FillColumn(before, u, req, user, StatusColumn);
    before := u;
    if req.dueDay.Some? { u := u[BillingDueDay := Number(req.dueDay.value)]; }
    FillColumn(before, u, req, user, BillingDueDay);
    before := u;
    if req.amountOverride.Some? { u := u[BillingOverride := Number(req.amountOverride.value)]; }
    FillColumn(before, u, req, user, BillingOverride);
    before := u;
    if req.channel.Some? { u := u[ReminderChannel := Words(TrimSpace(Lower(req.channel.value)))]; }
    FillColumn(before, u, req, user, ReminderChannel);
    before := u;
    if req.isPrimary.Some? { u := u[IsPrimary := Flag(req.isPrimary.value)]; }
    FillColumn(before, u, req, user, IsPrimary);
    before := u;
    if user != "" { u := u[UpdatedBy := Words(user)]; }
    FillColumn(before, u, req, user, UpdatedBy);
    AllFilled(u, req, user);
    PatchMapEmpty(u, req, user);
    forall cur: Lease ensures ApplyUpdates(cur, u) == PatchedRow(cur, req, user) {
      PatchMapApplies(u, req, user, cur);
    }
  }

  // No UPDATE moves a lease to another organization, unit or tenant.
  lemma UpdatesKeepIdentity(l: Lease, u: Updates)
    ensures var r := ApplyUpdates(l, u); r.org == l.org && r.unit == l.unit && r.tenant == l.tenant
  {
  }
}
