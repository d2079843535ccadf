/** The billing worker: reminders for charges due in seven days, with a log that is read before
    each send and written after it. */
module ReminderWorker {
  import opened Common
  import Text

  datatype Row = Row(
    org: Id, chargeId: Id, email: string, phone: string, emailOptIn: bool, smsOptIn: bool,
    tenantChannel: string, leaseChannel: string)

  datatype Channel = Sms | Email

  function PickChannel(r: Row): Channel {
    var lease := Text.Lower(Text.TrimSpace(r.leaseChannel));
    var tenant := Text.Lower(Text.TrimSpace(r.tenantChannel));
    if lease == "sms" then Sms
    else if lease == "email" then Email
    else if tenant == "sms" then Sms
    else if tenant == "email" then Email
    else if r.smsOptIn && Text.TrimSpace(r.phone) != "" then Sms
    else Email
  }

  // The lease's channel decides if it reads sms or email, else the tenant's, else text messages go to
  // those who agreed to them and have a number, and everything else by e-mail.
  lemma PickChannelExact(r: Row)
    ensures var (lease, tenant) := (Text.Lower(Text.TrimSpace(r.leaseChannel)), Text.Lower(Text.TrimSpace(r.tenantChannel)));
            PickChannel(r) == Sms <==>
              || lease == "sms"
              || (lease != "email" && tenant == "sms")
              || (lease != "email" && tenant != "email" && r.smsOptIn && Text.TrimSpace(r.phone) != "")
  {
    hide Text.TrimSpace, Text.Lower;
  }

  // Target days are formatted YYYY-MM-DD.
  type Day = s: string | |s| == 10 witness "2025-01-01"

  // A successful send, identified by what it was about.
  datatype Delivery = Delivery(org: Id, chargeId: Id, day: Day)

  datatype LogEntry = LogEntry(org: Id, summary: string)

  function Logged(d: Delivery): LogEntry {
    LogEntry(d.org, d.chargeId + ":" + d.day)
  }

  // The log tells any two deliveries apart, because the day suffix has one length.
  lemma LogKeyInjective(a: Delivery, b: Delivery)
    requires Logged(a) == Logged(b)
    ensures a == b
  {
    var s := a.chargeId + ":" + a.day;
    assert s == b.chargeId + ":" + b.day;
    assert |a.chargeId| == |b.chargeId|;
    assert a.chargeId == s[..|a.chargeId|] == b.chargeId;
    assert a.day == s[|a.chargeId| + 1..] == b.day;
  }

  // How the outside world treats one row: the log query, the send, the log write.
  datatype Fate = Fate(readOk: bool, sendOk: bool, writeOk: bool)

  datatype Books = Books(log: seq<LogEntry>, deliveries: seq<Delivery>)

  // An e-mail reminder needs an address; nothing else is checked before sending.
  predicate Addressable(r: Row) {
    PickChannel(r) == Sms || Text.TrimSpace(r.email) != ""
  }

  lemma AddressableExact(r: Row)
    ensures !Addressable(r) <==> PickChannel(r) == Email && Text.TrimSpace(r.email) == ""
  {
  }

  // A failed log query counts as "not sent".
  predicate AlreadySent(b: Books, d: Delivery, fate: Fate) {
    fate.readOk && Logged(d) in b.log
  }

  function Handle(b: Books, r: Row, fate: Fate, day: Day): Books {
    var d := Delivery(r.org, r.chargeId, day);
    if AlreadySent(b, d, fate) || !Addressable(r) || !fate.sendOk then b
    else Books(if fate.writeOk then b.log + [Logged(d)] else b.log, b.deliveries + [d])
  }

  function RunRows(b: Books, rows: seq<Row>, fates: seq<Fate>, day: Day): Books
    requires |rows| == |fates|
  {
    if rows == [] then b
    else
      var n := |rows| - 1;
      Handle(RunRows(b, rows[..n], fates[..n], day), rows[n], fates[n], day)
  }

  class Worker {
    var books: Books

    constructor (log: seq<LogEntry>)
      ensures books == Books(log, [])
    {
      books := Books(log, []);
    }

    method RunDueSoonReminders(rows: seq<Row>, fates: seq<Fate>, day: Day)
      requires |rows| == |fates|
      modifies this
      ensures books == RunRows(old(books), rows, fates, day)
    {
      hide PickChannel, Logged, Text.TrimSpace, Text.Lower;
      for i := 0 to |rows|
        invariant books == RunRows(old(books), rows[..i], fates[..i], day)
      {
        assert rows[..i + 1][..i] == rows[..i] && fates[..i + 1][..i] == fates[..i];
        var row, fate := rows[i], fates[i];
        var channel := PickChannel(row);
        var d := Delivery(row.org, row.chargeId, day);
        if fate.readOk && Logged(d) in books.log {
          continue;
        }
        if channel == Email && Text.TrimSpace(row.email) == "" {
          continue;
        }
        if !fate.sendOk {
          continue;
        }
        books := Books(books.log, books.deliveries + [d]);
        if fate.writeOk {
          books := Books(books.log + [Logged(d)], books.deliveries);
        }
      }
      assert rows[..|rows|] == rows && fates[..|fates|] == fates;
    }
  }

  // ---- runs of the worker ----

  datatype WorkerRun = WorkerRun(day: Day, rows: seq<Row>, fates: seq<Fate>)

  predicate WellFormed(runs: seq<WorkerRun>) {
    forall r :: r in runs ==> |r.rows| == |r.fates|
  }

  // The log answers every query and takes every write; sends may fail freely.
  predicate ReliableLog(fates: seq<Fate>) {
    forall f :: f in fates ==> f.readOk && f.writeOk
  }

  function RunAll(b: Books, runs: seq<WorkerRun>): Books
    requires WellFormed(runs)
    decreases |runs|
  {
    if runs == [] then b
    else
      assert runs[0] in runs;
      RunAll(RunRows(b, runs[0].rows, runs[0].fates, runs[0].day), runs[1..])
  }

  // Every delivery is in the log, and no delivery happened twice.
  ghost predicate InStep(b: Books) {
    && (forall d :: d in b.deliveries ==> Logged(d) in b.log)
    && (forall i, j :: 0 <= i < j < |b.deliveries| ==> b.deliveries[i] != b.deliveries[j])
  }

  lemma {:induction false} RowsStayInStep(b: Books, rows: seq<Row>, fates: seq<Fate>, day: Day)
    requires |rows| == |fates| && ReliableLog(fates) && InStep(b)
    ensures InStep(RunRows(b, rows, fates, day))
    ensures b.log <= RunRows(b, rows, fates, day).log && b.deliveries <= RunRows(b, rows, fates, day).deliveries
    decreases |rows|
  {
    hide Addressable, Logged;
    if rows != [] {
      var n := |rows| - 1;
      RowsStayInStep(b, rows[..n], fates[..n], day);
      assert fates[n] in fates;
      var before := RunRows(b, rows[..n], fates[..n], day);
      var after := RunRows(b, rows, fates, day);
      if after.deliveries != before.deliveries {
        var d := Delivery(rows[n].org, rows[n].chargeId, day);
        assert after.deliveries == before.deliveries + [d];
        assert d !in before.deliveries;
      }
    }
  }

  // Main result: over any number of runs with a reliable log, whatever rows they see and
  // whichever sends fail, no charge is reminded of twice for one target day.
  lemma {:induction false} AtMostOneReminder(b: Books, runs: seq<WorkerRun>)
    requires WellFormed(runs) && InStep(b)
    requires forall r :: r in runs ==> ReliableLog(r.fates)
    ensures InStep(RunAll(b, runs))
    decreases |runs|
  {
    hide InStep;
    if runs != [] {
      assert runs[0] in runs;
      RowsStayInStep(b, runs[0].rows, runs[0].fates, runs[0].day);
      AtMostOneReminder(RunRows(b, runs[0].rows, runs[0].fates, runs[0].day), runs[1..]);
    }
  }

  // ---- exactly when a reminder goes out at most once, and when at all ----

  // The row would deliver d if nothing in the log held it back: it is about d, can be addressed, and
  // its send succeeds.
  predicate Attempts(r: Row, fate: Fate, day: Day, d: Delivery) {
    Delivery(r.org, r.chargeId, day) == d && Addressable(r) && fate.sendOk
  }

  // How the log treats the attempts at d, in order.
  function AttemptsOfRows(rows: seq<Row>, fates: seq<Fate>, day: Day, d: Delivery): seq<Fate>
    requires |rows| == |fates|
  {
    if rows == [] then []
    else
      var n := |rows| - 1;
      AttemptsOfRows(rows[..n], fates[..n], day, d) + if Attempts(rows[n], fates[n], day, d) then [fates[n]] else []
  }

  function AttemptsOfRuns(runs: seq<WorkerRun>, d: Delivery): seq<Fate>
    requires WellFormed(runs)
    decreases |runs|
  {
    if runs == [] then []
    else
      assert runs[0] in runs;
      AttemptsOfRows(runs[0].rows, runs[0].fates, runs[0].day, d) + AttemptsOfRuns(runs[1..], d)
  }

  // No attempt after the first misses a log entry that the first has made.
  predicate LogHolds(attempts: seq<Fate>) {
    |attempts| <= 1 || (attempts[0].writeOk && forall k :: 0 < k < |attempts| ==> attempts[k].readOk)
  }

  // How often a row is delivered by the attempts, and whether the log has it after them.
  function Account(attempts: seq<Fate>): (nat, bool) {
    if attempts == [] then (0, false)
    else
      var (times, logged) := Account(attempts[..|attempts| - 1]);
      var f := attempts[|attempts| - 1];
      if logged && f.readOk then (times, logged) else (times + 1, logged || f.writeOk)
  }

  lemma {:induction false} AccountExact(attempts: seq<Fate>)
    ensures var (times, logged) := Account(attempts);
            && (times >= 1 <==> attempts != [])
            && (times <= 1 <==> LogHolds(attempts))
            && (times == 1 ==> logged == attempts[0].writeOk)
    decreases |attempts|
  {
    if attempts != [] {
      var n := |attempts| - 1;
      AccountExact(attempts[..n]);
      if n == 0 {
        assert attempts[..n] == [];
      } else {
        assert forall k :: 0 <= k < n ==> attempts[..n][k] == attempts[k];
      }
    }
  }

  // The books after the attempts, as far as d is concerned.
  ghost predicate Accounted(b: Books, d: Delivery, attempts: seq<Fate>) {
    Account(attempts) == (multiset(b.deliveries)[d], Logged(d) in b.log)
  }

  lemma HandleAccounts(b: Books, r: Row, fate: Fate, day: Day, d: Delivery, attempts: seq<Fate>)
    requires Accounted(b, d, attempts)
    ensures Accounted(Handle(b, r, fate, day), d, attempts + if Attempts(r, fate, day, d) then [fate] else [])
  {
    hide Addressable, Logged;
    var e := Delivery(r.org, r.chargeId, day);
    var more := attempts + [fate];
    assert more[..|more| - 1] == attempts && attempts + [] == attempts;
    if e != d && Logged(e) == Logged(d) {
      LogKeyInjective(e, d);
    }
  }

  lemma {:induction false} RowsAccount(b: Books, rows: seq<Row>, fates: seq<Fate>, day: Day, d: Delivery, attempts: seq<Fate>)
    requires |rows| == |fates| && Accounted(b, d, attempts)
    ensures Accounted(RunRows(b, rows, fates, day), d, attempts + AttemptsOfRows(rows, fates, day, d))
    decreases |rows|
  {
    hide Accounted, Handle, Attempts;
    if rows == [] {
      assert attempts + [] == attempts;
    } else {
      var n := |rows| - 1;
      var earlier := AttemptsOfRows(rows[..n], fates[..n], day, d);
      var last := if Attempts(rows[n], fates[n], day, d) then [fates[n]] else [];
      RowsAccount(b, rows[..n], fates[..n], day, d, attempts);
      HandleAccounts(RunRows(b, rows[..n], fates[..n], day), rows[n], fates[n], day, d, attempts + earlier);
      assert attempts + earlier + last == attempts + (earlier + last);
    }
  }

  lemma {:induction false} RunsAccount(b: Books, runs: seq<WorkerRun>, d: Delivery, attempts: seq<Fate>)
    requires WellFormed(runs) && Accounted(b, d, attempts)
    ensures Accounted(RunAll(b, runs), d, attempts + AttemptsOfRuns(runs, d))
    decreases |runs|
  {
    hide Accounted, RunRows, AttemptsOfRows;
    if runs == [] {
      assert attempts + [] == attempts;
    } else {
      assert runs[0] in runs;
      var first := AttemptsOfRows(runs[0].rows, runs[0].fates, runs[0].day, d);
      RowsAccount(b, runs[0].rows, runs[0].fates, runs[0].day, d, attempts);
      RunsAccount(RunRows(b, runs[0].rows, runs[0].fates, runs[0].day), runs[1..], d, attempts + first);
      assert attempts + first + AttemptsOfRuns(runs[1..], d) == attempts + (first + AttemptsOfRuns(runs[1..], d));
    }
  }

  // Main result: a reminder not yet logged or delivered goes out at most once, over any number of runs
  // with any failures, exactly when the log holds: there is one attempt at most, or the first is logged
  // and no later one fails to read the log. It goes out at all exactly when there is an attempt.
  lemma DeliveriesExact(b: Books, runs: seq<WorkerRun>, d: Delivery)
    requires WellFormed(runs) && Logged(d) !in b.log && d !in b.deliveries
    ensures var times := multiset(RunAll(b, runs).deliveries)[d];
            && (times <= 1 <==> LogHolds(AttemptsOfRuns(runs, d)))
            && (times >= 1 <==> AttemptsOfRuns(runs, d) != [])
  {
    hide RunAll, AttemptsOfRuns, LogHolds, Logged;
    var attempts := AttemptsOfRuns(runs, d);
    RunsAccount(b, runs, d, []);
    assert [] + attempts == attempts;
    AccountExact(attempts);
  }

  // The query joins on primary keys, so a run sees each charge once.
  predicate EachChargeOnce(rows: seq<Row>) {
    forall i, j :: 0 <= i < j < |rows| ==> (rows[i].org, rows[i].chargeId) != (rows[j].org, rows[j].chargeId)
  }

  lemma {:induction false} OneAttemptPerRun(rows: seq<Row>, fates: seq<Fate>, day: Day, d: Delivery)
    requires |rows| == |fates| && EachChargeOnce(rows)
    ensures |AttemptsOfRows(rows, fates, day, d)| <= 1
    ensures AttemptsOfRows(rows, fates, day, d) != [] ==> exists k :: 0 <= k < |rows| && Attempts(rows[k], fates[k], day, d)
    decreases |rows|
  {
    hide Addressable;
    if rows != [] {
      var n := |rows| - 1;
      OneAttemptPerRun(rows[..n], fates[..n], day, d);
      if AttemptsOfRows(rows[..n], fates[..n], day, d) != [] {
        var k :| 0 <= k < n && Attempts(rows[..n][k], fates[..n][k], day, d);
        assert rows[k] == rows[..n][k] && fates[k] == fates[..n][k];
      }
    }
  }

  // So one run alone never repeats a reminder, whatever the log does: it takes a second run of the day.
  lemma OneRunNeverRepeats(b: Books, run: WorkerRun, d: Delivery)
    requires |run.rows| == |run.fates| && EachChargeOnce(run.rows) && Logged(d) !in b.log && d !in b.deliveries
    ensures multiset(RunAll(b, [run]).deliveries)[d] <= 1
  {
    hide RunAll, EachChargeOnce, Logged, AttemptsOfRows;
    DeliveriesExact(b, [run], d);
    OneAttemptPerRun(run.rows, run.fates, run.day, d);
    assert [run][1..] == [] && AttemptsOfRuns([], d) == [];
  }

  // An unlogged reminder stays eligible over any runs without an attempt at it, and the first attempt
  // after them delivers it, however the log behaves.
  lemma FailedReminderStaysEligible(b: Books, runs: seq<WorkerRun>, r: Row, fate: Fate, day: Day)
    requires WellFormed(runs)
    requires var d := Delivery(r.org, r.chargeId, day);
             Logged(d) !in b.log && d !in b.deliveries && AttemptsOfRuns(runs, d) == []
    ensures var (d, after) := (Delivery(r.org, r.chargeId, day), RunAll(b, runs));
            && Logged(d) !in after.log && d !in after.deliveries
            && Handle(after, r, fate, day).deliveries ==
               after.deliveries + if Attempts(r, fate, day, d) then [d] else []
  {
    hide Addressable, RunAll, Logged, AttemptsOfRuns;
    var d := Delivery(r.org, r.chargeId, day);
    RunsAccount(b, runs, d, []);
    assert RunAll(b, runs).deliveries + [] == RunAll(b, runs).deliveries;
  }

  // With its log write lost, a reminder goes out again when the worker runs a second time that day.
  lemma LostLogWriteRepeats(b: Books, r: Row, day: Day)
    requires Addressable(r) && Logged(Delivery(r.org, r.chargeId, day)) !in b.log
    ensures var run := WorkerRun(day, [r], [Fate(true, true, false)]);
            var d := Delivery(r.org, r.chargeId, day);
            RunAll(b, [run, run]).deliveries == b.deliveries + [d, d]
  {
    hide Addressable;
    hide RunAll, RunRows;
    var lost := Fate(true, true, false);
    var run := WorkerRun(day, [r], [lost]);
    TwoRuns(b, run);
    OneRow(b, r, lost, day);
    OneRow(Handle(b, r, lost, day), r, lost, day);
  }

  lemma OneRow(b: Books, r: Row, fate: Fate, day: Day)
    ensures RunRows(b, [r], [fate], day) == Handle(b, r, fate, day)
  {
    hide Handle;
    assert [r][..0] == [] && [fate][..0] == [];
    assert RunRows(b, [], [], day) == b;
  }

  lemma TwoRuns(b: Books, run: WorkerRun)
    requires |run.rows| == |run.fates|
    ensures RunAll(b, [run, run]) == RunRows(RunRows(b, run.rows, run.fates, run.day), run.rows, run.fates, run.day)
  {
    hide RunRows;
    var once := RunRows(b, run.rows, run.fates, run.day);
    assert [run, run][1..] == [run] && [run][1..] == [];
    assert RunAll(b, [run, run]) == RunAll(once, [run]);
    assert RunAll(once, [run]) == RunAll(RunRows(once, run.rows, run.fates, run.day), []);
  }
}
