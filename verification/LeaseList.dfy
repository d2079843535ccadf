/** The paged lease list: filters, a total order, and LIMIT/OFFSET pages that each come from
    a query of their own. */
module LeaseList {
  import opened Common
  import opened LeaseRanges
  import opened LeaseModel

  // ---- pagination parameters ----

  const DEFAULT_PAGE := 1
  const DEFAULT_SIZE := 20
  const MAX_SIZE := 100
  const MAX_INT64 := 0x7fff_ffff_ffff_ffff

  datatype Params = Params(page: int, size: int)

  // FromQuery, after Atoi: an unparsable value arrives as 0 and a too large one as the largest int.
  method FromQuery(rawPage: int, rawSize: int) returns (p: Params)
    requires -MAX_INT64 - 1 <= rawPage <= MAX_INT64 && -MAX_INT64 - 1 <= rawSize <= MAX_INT64
    ensures 1 <= p.page <= MAX_INT64 && 1 <= p.size <= 100
    ensures p.page == (if rawPage >= 1 then rawPage else 1)
    ensures 1 <= rawSize <= 100 ==> p.size == rawSize
    ensures rawSize < 1 ==> p.size == 20
    ensures rawSize > 100 ==> p.size == 100
  {
    var page, size := rawPage, rawSize;
    if page < 1 { page := DEFAULT_PAGE; }
    if size < 1 { size := DEFAULT_SIZE; }
    if size > MAX_SIZE { size := MAX_SIZE; }
    return Params(page, size);
  }

  // Two's-complement wrap-around of Go's 64-bit int.
  function Wrap64(x: int): int {
    (x + MAX_INT64 + 1) % (2 * (MAX_INT64 + 1)) - MAX_INT64 - 1
  }

  function Offset(p: Params): int {
    Wrap64((p.page - 1) * p.size)
  }

  // The offset is the number of rows before the page exactly while that number is an int64.
  lemma OffsetExact(p: Params)
    requires p.page >= 1 && 1 <= p.size
    ensures Offset(p) == (p.page - 1) * p.size <==> (p.page - 1) * p.size <= MAX_INT64
  {
    var x := (p.page - 1) * p.size;
    assert x >= 0;
    WrapFixes(x);
  }

  lemma WrapFixes(x: int)
    requires x >= 0
    ensures Wrap64(x) == x <==> x <= MAX_INT64
  {
  }

  // What a wrapped number comes to: the low 64 bits, read with a sign.
  lemma WrapReads(x: int)
    requires x >= 0
    ensures var low := x % (2 * (MAX_INT64 + 1)); Wrap64(x) == if low <= MAX_INT64 then low else low - 2 * (MAX_INT64 + 1)
  {
  }

  // ---- the filtered, ordered list ----

  // The unit's organization and building, for the building filters.
  datatype UnitPlace = UnitPlace(org: Id, building: Id)

  // allowedBuildings restricts a manager who names no building; activeOn is the first instant of a UTC day.
  datatype Filter = Filter(
    org: Id, status: Option<LeaseStatus>, unit: Option<Id>, tenant: Option<Id>,
    building: Option<Id>, allowedBuildings: seq<Id>, activeOn: Option<Instant>)

  predicate Selected(f: Filter, places: map<Id, UnitPlace>, l: Lease) {
    && l.org == f.org
    && (f.status.Some? ==> l.status == f.status.value)
    && (f.unit.Some? ==> l.unit == f.unit.value)
    && (f.tenant.Some? ==> l.tenant == f.tenant.value)
    && (if f.building.Some? then
          l.unit in places && places[l.unit] == UnitPlace(f.org, f.building.value)
        else if f.allowedBuildings != [] then
          l.unit in places && places[l.unit].org == f.org && places[l.unit].building in f.allowedBuildings
        else true)
    && (f.activeOn.Some? ==> l.status == Active && ActiveOnDay(l.range, f.activeOn.value))
  }

  // The rows a filter wants: of its organization, and of the status, unit, tenant or building it names,
  // in one of the allowed buildings when it names none and is restricted, and on its day active.
  lemma WantedExact(leases: map<Id, Lease>, f: Filter, places: map<Id, UnitPlace>, id: Id)
    ensures id in Wanted(leases, f, places) <==>
            && id in leases
            && var l := leases[id];
            && l.org == f.org
            && (f.status == None || Some(l.status) == f.status)
            && (f.unit == None || Some(l.unit) == f.unit)
            && (f.tenant == None || Some(l.tenant) == f.tenant)
            && (f.building == None || (l.unit in places && places[l.unit].org == f.org && Some(places[l.unit].building) == f.building))
            && (f.building == None && f.allowedBuildings != [] ==>
                  l.unit in places && places[l.unit].org == f.org && places[l.unit].building in f.allowedBuildings)
            && (f.activeOn == None ||
                  (&& l.status == Active && l.range.start < f.activeOn.value + 86_400_000_000_000
                   && (l.range.end == None || f.activeOn.value < l.range.end.value)))
  {
  }

  // Ids compare character by character.
  predicate IdLess(a: Id, b: Id) {
    if b == "" then false
    else if a == "" then true
    else a[0] < b[0] || (a[0] == b[0] && IdLess(a[1..], b[1..]))
  }

  lemma IdLessTotal(a: Id, b: Id)
    ensures (IdLess(a, b) || IdLess(b, a) || a == b) && !(IdLess(a, b) && IdLess(b, a)) && !IdLess(a, a)
  {
    if a != "" && b != "" && a[0] == b[0] {
      IdLessTotal(a[1..], b[1..]);
      assert a == [a[0]] + a[1..] && b == [b[0]] + b[1..];
    }
    if a != "" {
      IdLessTotal(a[1..], a[1..]);
    }
  }

  // ORDER BY start_date DESC, id ASC
  predicate Before(leases: map<Id, Lease>, a: Id, b: Id)
    requires a in leases && b in leases
  {
    var (s, t) := (leases[a].range.start, leases[b].range.start);
    s > t || (s == t && IdLess(a, b))
  }

  lemma BeforeAsymmetric(leases: map<Id, Lease>, a: Id, b: Id)
    requires a in leases && b in leases
    ensures !(Before(leases, a, b) && Before(leases, b, a)) && (a != b ==> Before(leases, a, b) || Before(leases, b, a))
  {
    IdLessTotal(a, b);
  }

  // A possible answer to the query without LIMIT: the selected rows, each once, in order.
  ghost predicate Lists(leases: map<Id, Lease>, wanted: set<Id>, rows: seq<Id>) {
    && (forall id :: id in rows <==> id in wanted)
    && wanted <= leases.Keys
    && (forall i, j :: 0 <= i < j < |rows| ==> rows[i] in leases && rows[j] in leases && Before(leases, rows[i], rows[j]))
  }

  lemma {:induction false} IdLessExact(a: Id, b: Id) returns (k: nat)
    requires IdLess(a, b)
    ensures k <= |a| && k < |b| && a[..k] == b[..k] && (k == |a| || a[k] < b[k])
    decreases |a|
  {
    if a == "" || a[0] < b[0] {
      k := 0;
    } else {
      k := IdLessExact(a[1..], b[1..]);
      assert a[..k + 1] == [a[0]] + a[1..][..k] && b[..k + 1] == [b[0]] + b[1..][..k];
      k := k + 1;
    }
  }

  // The list runs from the latest start to the earliest, and rows of one start by id, the way words
  // stand in a dictionary.
  lemma ListedInOrder(leases: map<Id, Lease>, wanted: set<Id>, rows: seq<Id>, i: nat, j: nat) returns (k: nat)
    requires Lists(leases, wanted, rows) && i < j < |rows|
    ensures rows[i] in leases && rows[j] in leases
    ensures leases[rows[i]].range.start >= leases[rows[j]].range.start
    ensures leases[rows[i]].range.start == leases[rows[j]].range.start ==>
              var (a, b) := (rows[i], rows[j]);
              k <= |a| && k < |b| && a[..k] == b[..k] && (k == |a| || a[k] < b[k])
  {
    assert Before(leases, rows[i], rows[j]);
    k := 0;
    if leases[rows[i]].range.start == leases[rows[j]].range.start {
      k := IdLessExact(rows[i], rows[j]);
    }
  }

  function Wanted(leases: map<Id, Lease>, f: Filter, places: map<Id, UnitPlace>): set<Id> {
    set id | id in leases && Selected(f, places, leases[id])
  }

  lemma FirstRowAgrees(leases: map<Id, Lease>, wanted: set<Id>, a: seq<Id>, b: seq<Id>)
    requires Lists(leases, wanted, a) && Lists(leases, wanted, b) && a != [] && b != []
    ensures a[0] == b[0]
  {
    assert a[0] in a && b[0] in b;
    var i :| 0 <= i < |a| && a[i] == b[0];
    var j :| 0 <= j < |b| && b[j] == a[0];
    BeforeAsymmetric(leases, a[0], b[0]);
  }

  lemma ListsTail(leases: map<Id, Lease>, wanted: set<Id>, a: seq<Id>)
    requires Lists(leases, wanted, a) && a != []
    ensures Lists(leases, wanted - {a[0]}, a[1..])
  {
    assert a[0] in wanted by { assert a[0] in a; }
    forall id ensures id in a[1..] <==> id in wanted - {a[0]} {
      if id in a[1..] {
        var k :| 0 <= k < |a| - 1 && a[1..][k] == id;
        assert a[k + 1] == id && id in a;
        BeforeAsymmetric(leases, a[0], id);
      }
    }
  }

  // The order is total, so the query has one answer, and its length is the reported total.
  lemma {:induction false} ListIsUnique(leases: map<Id, Lease>, wanted: set<Id>, a: seq<Id>, b: seq<Id>)
    requires Lists(leases, wanted, a) && Lists(leases, wanted, b)
    ensures a == b && |a| == |wanted|
    decreases |wanted|
  {
    hide Lists;
    NothingListed(leases, wanted, a);
    NothingListed(leases, wanted, b);
    if wanted != {} {
      FirstRowAgrees(leases, wanted, a, b);
      ListsTail(leases, wanted, a);
      ListsTail(leases, wanted, b);
      ListIsUnique(leases, wanted - {a[0]}, a[1..], b[1..]);
      assert a == [a[0]] + a[1..] && b == [b[0]] + b[1..];
    }
  }

  lemma NothingListed(leases: map<Id, Lease>, wanted: set<Id>, a: seq<Id>)
    requires Lists(leases, wanted, a)
    ensures a == [] <==> wanted == {}
    ensures a != [] ==> a[0] in wanted
  {
    if a != [] {
      assert a[0] in a;
    }
  }

  // ---- pages ----

  function Min(a: int, b: int): int {
    if a < b then a else b
  }

  // LIMIT size OFFSET offset; the ORM leaves an offset out unless it is positive.
  function Page(rows: seq<Id>, offset: int, size: nat): seq<Id> {
    var from := if offset > 0 then offset else 0;
    rows[Min(from, |rows|)..Min(from + size, |rows|)]
  }

  // What a request for a page gets.
  function PageFor(rows: seq<Id>, p: Params): seq<Id>
    requires p.size >= 0
  {
    Page(rows, Offset(p), p.size)
  }

  // Pages 1 to n joined, each cut from the answer its own request got.
  function Joined(answers: seq<seq<Id>>, size: nat, n: nat): seq<Id>
    requires n <= |answers|
  {
    if n == 0 then [] else Joined(answers, size, n - 1) + PageFor(answers[n - 1], Params(n, size))
  }

  lemma {:induction false} JoinedIsPrefix(leases: map<Id, Lease>, wanted: set<Id>, answers: seq<seq<Id>>, all: seq<Id>, size: nat, n: nat)
    requires n <= |answers| && Lists(leases, wanted, all) && size > 0 && (n > 0 ==> (n - 1) * size <= MAX_INT64)
    requires forall k :: 0 <= k < n ==> Lists(leases, wanted, answers[k])
    ensures Joined(answers, size, n) == all[..Min(n * size, |all|)]
    decreases n
  {
    hide Lists, Wrap64;
    if n > 0 {
      var done := (n - 1) * size;
      assert n > 1 ==> (n - 2) * size == done - size;
      JoinedIsPrefix(leases, wanted, answers, all, size, n - 1);
      ListIsUnique(leases, wanted, answers[n - 1], all);
      OffsetExact(Params(n, size));
      assert n * size == done + size && 0 <= done;
    }
  }

  // The number of pages: ceil(total / size).
  function PageCount(total: nat, size: nat): nat
    requires size > 0
  {
    (total + size - 1) / size
  }

  lemma PageCountCovers(total: nat, size: nat, n: nat)
    requires size > 0 && n >= PageCount(total, size)
    ensures n * size >= total
  {
    var c := PageCount(total, size);
    assert c * size >= total by {
      assert total + size - 1 == c * size + (total + size - 1) % size;
    }
    assert n * size >= c * size;
  }

  lemma LastPageStartsInside(total: nat, size: nat)
    requires size > 0 && total > 0
    ensures PageCount(total, size) > 0 && (PageCount(total, size) - 1) * size < total
  {
    var c := PageCount(total, size);
    assert total + size - 1 == c * size + (total + size - 1) % size;
    assert (c - 1) * size == c * size - size;
  }

  // Main result: on unchanging data, asking for pages 1 to ceil(total / size) one by one yields the
  // whole filtered list in its order with each row once, and the total is the number of selected
  // rows. Later pages are empty while the number of rows before them is an int64. (A count is one.)
  lemma PagesPartition(leases: map<Id, Lease>, f: Filter, places: map<Id, UnitPlace>, answers: seq<seq<Id>>, all: seq<Id>, size: nat)
    requires 1 <= size <= MAX_SIZE && |all| <= MAX_INT64
    requires Lists(leases, Wanted(leases, f, places), all)
    requires forall k :: 0 <= k < |answers| ==> Lists(leases, Wanted(leases, f, places), answers[k])
    requires |answers| >= PageCount(|all|, size)
    ensures |all| == |Wanted(leases, f, places)|
    ensures Joined(answers, size, PageCount(|all|, size)) == all
    ensures forall k :: PageCount(|all|, size) <= k < |answers| && k * size <= MAX_INT64 ==>
              PageFor(answers[k], Params(k + 1, size)) == []
  {
    hide Lists, Wanted, Joined, PageFor, PageCount, Min;
    var wanted := Wanted(leases, f, places);
    var n := PageCount(|all|, size);
    ListIsUnique(leases, wanted, all, all);
    if all != [] {
      LastPageStartsInside(|all|, size);
    }
    assert n > 0 ==> (n - 1) * size <= MAX_INT64 by { NoRowsNoPages(|all|, size); }
    JoinedIsPrefix(leases, wanted, answers, all, size, n);
    WholePrefix(all, size);
    forall k | n <= k < |answers| && k * size <= MAX_INT64 ensures PageFor(answers[k], Params(k + 1, size)) == [] {
      ListIsUnique(leases, wanted, answers[k], all);
      PagePastEnd(all, k + 1, size);
      assert (k + 1 - 1) * size == k * size;
    }
  }

  lemma NoRowsNoPages(total: nat, size: nat)
    requires size > 0
    ensures total == 0 ==> PageCount(total, size) == 0
  {
  }

  lemma WholePrefix(rows: seq<Id>, size: nat)
    requires size > 0
    ensures rows[..Min(PageCount(|rows|, size) * size, |rows|)] == rows
  {
    hide PageCount;
    PageCountCovers(|rows|, size, PageCount(|rows|, size));
  }

  // What a page past the end returns, for every page number that fits an int: the rows at the low 64
  // bits of the product, or the first page where those read as negative. So it is empty exactly when
  // there are no rows or those bits lie from the total up to the largest int64, and always while the
  // product itself does.
  lemma PagePastEnd(rows: seq<Id>, page: int, size: nat)
    requires size > 0 && page > PageCount(|rows|, size)
    ensures var x := (page - 1) * size;
            var low := x % (2 * (MAX_INT64 + 1));
            && PageFor(rows, Params(page, size)) ==
               (if low > MAX_INT64 then rows[..Min(size, |rows|)] else rows[Min(low, |rows|)..Min(low + size, |rows|)])
            && (PageFor(rows, Params(page, size)) == [] <==> rows == [] || |rows| <= low <= MAX_INT64)
            && (x <= MAX_INT64 ==> PageFor(rows, Params(page, size)) == [])
  {
    hide PageCount, Wrap64, Page, Min;
    var x := (page - 1) * size;
    PageCountCovers(|rows|, size, page - 1);
    WrapReads(x);
    RowsAtLow(rows, x, x % (2 * (MAX_INT64 + 1)), size);
  }

  lemma RowsAtLow(rows: seq<Id>, x: int, low: int, size: nat)
    requires size > 0 && 0 <= low <= x && |rows| <= x && (x <= MAX_INT64 ==> low == x)
    ensures var offset := if low <= MAX_INT64 then low else low - 2 * (MAX_INT64 + 1);
            low < 2 * (MAX_INT64 + 1) ==>
              && Page(rows, offset, size) ==
                 (if low > MAX_INT64 then rows[..Min(size, |rows|)] else rows[Min(low, |rows|)..Min(low + size, |rows|)])
              && (Page(rows, offset, size) == [] <==> rows == [] || |rows| <= low <= MAX_INT64)
              && (x <= MAX_INT64 ==> Page(rows, offset, size) == [])
  {
  }

  // The largest page number at the default size returns the first page.
  lemma HugePageWraps(rows: seq<Id>)
    ensures PageFor(rows, Params(MAX_INT64, DEFAULT_SIZE)) == rows[..Min(DEFAULT_SIZE, |rows|)]
  {
    assert Offset(Params(MAX_INT64, DEFAULT_SIZE)) == -40;
  }
}
