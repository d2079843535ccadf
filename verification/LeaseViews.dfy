/** Maps derived from the leases table: the active lease shown per unit, and the active-lease
    count and current unit shown per tenant. Both are filled in one pass over rows that the
    database returns newest first. */
module LeaseViews {
  import opened Common
  import opened LeaseModel
  import opened LeaseSteps
  import opened LeaseTheorems

  // The two selections: active leases on some units, or of some tenants, of an organization.
  datatype Selection = OnUnits(org: Id, ids: seq<Id>) | OfTenants(org: Id, ids: seq<Id>) {
    // The column the rows are grouped by.
    function Key(l: Lease): Id {
      if OnUnits? then l.unit else l.tenant
    }

    predicate Wants(l: Lease) {
      l.org == org && l.status == Active && Key(l) in ids
    }
  }

  predicate InGroup(leases: map<Id, Lease>, s: Selection, key: Id, id: Id) {
    id in leases && s.Wants(leases[id]) && s.Key(leases[id]) == key
  }

  predicate Stored(leases: map<Id, Lease>, rows: seq<Id>) {
    forall k :: 0 <= k < |rows| ==> rows[k] in leases
  }

  // The result of a selection ORDER BY updated_at DESC: each selected row once, newest first.
  ghost predicate NewestFirst(leases: map<Id, Lease>, s: Selection, rows: seq<Id>) {
    && Stored(leases, rows)
    && (forall i, j :: 0 <= i < j < |rows| ==> rows[i] != rows[j])
    && (forall id :: id in rows <==> id in leases && s.Wants(leases[id]))
    && (forall i, j :: 0 <= i < j < |rows| ==> leases[rows[i]].updatedAt >= leases[rows[j]].updatedAt)
  }

  // No lease of the group was updated after this one.
  ghost predicate IsLatest(leases: map<Id, Lease>, s: Selection, key: Id, id: Id) {
    InGroup(leases, s, key, id) && forall o :: InGroup(leases, s, key, o) ==> leases[o].updatedAt <= leases[id].updatedAt
  }

  // The first row of each group, as the passes over the rows collect it.
  function FirstWins(leases: map<Id, Lease>, s: Selection, rows: seq<Id>): (out: map<Id, Lease>)
    requires Stored(leases, rows)
  {
    if rows == [] then map[]
    else
      var out := FirstWins(leases, s, rows[..|rows| - 1]);
      var l := leases[rows[|rows| - 1]];
      if s.Key(l) in out then out else out[s.Key(l) := l]
  }

  // Row k is the first of its group.
  predicate FirstOfGroup(leases: map<Id, Lease>, s: Selection, rows: seq<Id>, key: Id, k: int)
    requires Stored(leases, rows)
  {
    0 <= k < |rows| && s.Key(leases[rows[k]]) == key && forall j :: 0 <= j < k ==> s.Key(leases[rows[j]]) != key
  }

  // Where a group's first row is, in the rows already looked at, if it has one.
  ghost predicate FoundFirst(leases: map<Id, Lease>, s: Selection, rows: seq<Id>, key: Id, found: Option<Lease>)
    requires Stored(leases, rows)
  {
    match found
    case Some(l) => exists k :: FirstOfGroup(leases, s, rows, key, k) && l == leases[rows[k]]
    case None => forall k :: 0 <= k < |rows| ==> s.Key(leases[rows[k]]) != key
  }

  lemma FoundFurther(leases: map<Id, Lease>, s: Selection, rows: seq<Id>, key: Id, found: Option<Lease>)
    requires Stored(leases, rows) && rows != [] && Stored(leases, rows[..|rows| - 1])
    requires FoundFirst(leases, s, rows[..|rows| - 1], key, found)
    ensures var l := leases[rows[|rows| - 1]];
            FoundFirst(leases, s, rows, key, if found.None? && s.Key(l) == key then Some(l) else found)
  {
    var n := |rows| - 1;
    var front := rows[..n];
    assert forall j :: 0 <= j < n ==> front[j] == rows[j];
    if found.Some? {
      var k :| FirstOfGroup(leases, s, front, key, k) && found.value == leases[front[k]];
      assert FirstOfGroup(leases, s, rows, key, k);
    } else if s.Key(leases[rows[n]]) == key {
      assert forall j :: 0 <= j < n ==> s.Key(leases[rows[j]]) != key;
      assert FirstOfGroup(leases, s, rows, key, n);
    }
  }

  // A group has an entry exactly when it has a row, and the entry is its first row.
  lemma {:induction false} FirstWinsExact(leases: map<Id, Lease>, s: Selection, rows: seq<Id>, key: Id)
    requires Stored(leases, rows)
    ensures var out := FirstWins(leases, s, rows); FoundFirst(leases, s, rows, key, if key in out then Some(out[key]) else None)
    decreases |rows|
  {
    if rows != [] {
      var front := rows[..|rows| - 1];
      assert Stored(leases, front);
      FirstWinsExact(leases, s, front, key);
      var out := FirstWins(leases, s, front);
      hide FoundFirst, Stored;
      FoundFurther(leases, s, rows, key, if key in out then Some(out[key]) else None);
    }
  }

  // On a newest-first result: a key has an entry exactly when its group has a lease, and the entry
  // is a latest-updated one.
  lemma FirstIsLatest(leases: map<Id, Lease>, s: Selection, rows: seq<Id>, key: Id)
    requires NewestFirst(leases, s, rows)
    ensures var out := FirstWins(leases, s, rows);
            && (key in out <==> exists id :: InGroup(leases, s, key, id))
            && (key in out ==> exists id :: IsLatest(leases, s, key, id) && out[key] == leases[id])
  {
    var out := FirstWins(leases, s, rows);
    FirstWinsExact(leases, s, rows, key);
    if key in out {
      var k :| FirstOfGroup(leases, s, rows, key, k) && out[key] == leases[rows[k]];
      assert rows[k] in rows;
      assert InGroup(leases, s, key, rows[k]);
      forall o | InGroup(leases, s, key, o) ensures leases[o].updatedAt <= leases[rows[k]].updatedAt {
        assert o in rows;
        var j :| 0 <= j < |rows| && rows[j] == o;
        assert j >= k;
      }
      assert IsLatest(leases, s, key, rows[k]);
    }
    if id :| InGroup(leases, s, key, id) {
      assert id in rows;
    }
  }

  // units.Repository.ActiveLeasesByUnitIDs
  method ActiveLeasesByUnitIDs(leases: map<Id, Lease>, org: Id, units: seq<Id>, rows: seq<Id>)
    returns (out: map<Id, Lease>)
    requires Stored(leases, rows)
    ensures out == FirstWins(leases, OnUnits(org, units), rows)
  {
    out := map[];
    for i := 0 to |rows|
      invariant out == FirstWins(leases, OnUnits(org, units), rows[..i])
    {
      assert rows[..i + 1][..i] == rows[..i];
      var l := leases[rows[i]];
      if l.unit !in out {
        out := out[l.unit := l];
      }
    }
    assert rows[..|rows|] == rows;
  }

  // The view of a unit: it has an entry exactly when it was asked for and has an active lease, and
  // the entry is a latest-updated one.
  lemma UnitView(leases: map<Id, Lease>, org: Id, units: seq<Id>, rows: seq<Id>, u: Id)
    requires NewestFirst(leases, OnUnits(org, units), rows)
    ensures var (s, out) := (OnUnits(org, units), FirstWins(leases, OnUnits(org, units), rows));
            && (u in out <==> u in units && HasActive(leases, org, u))
            && (u in out ==> exists id :: IsLatest(leases, s, u, id) && out[u] == leases[id])
  {
    hide FirstWins;
    var s := OnUnits(org, units);
    FirstIsLatest(leases, s, rows, u);
    if id :| InGroup(leases, s, u, id) {
      assert HasActive(leases, org, u);
    }
    if u in units && HasActive(leases, org, u) {
      var id :| id in leases && leases[id].org == org && leases[id].unit == u && leases[id].status == Active;
      assert InGroup(leases, s, u, id);
    }
  }

  datatype CurrentUnit = CurrentUnit(unit: Id, unitLabel: string)

  // A unit the labels query did not return gets the empty label.
  function LabelledUnit(unit: Id, unitLabels: map<Id, string>): CurrentUnit {
    CurrentUnit(unit, if unit in unitLabels then unitLabels[unit] else "")
  }

  // SELECT tenant_id, count(*) ... GROUP BY tenant_id: a group with no row has no entry.
  function ActiveCount(leases: map<Id, Lease>, org: Id, tenant: Id): nat {
    |set id | id in leases && leases[id].org == org && leases[id].status == Active && leases[id].tenant == tenant|
  }

  function ActiveCounts(leases: map<Id, Lease>, org: Id, tenants: seq<Id>): map<Id, nat> {
    map t | t in tenants && ActiveCount(leases, org, t) > 0 :: ActiveCount(leases, org, t)
  }

  // Each tenant's first row, shown as its unit with a label.
  function CurrentUnits(leases: map<Id, Lease>, s: Selection, unitLabels: map<Id, string>, rows: seq<Id>): map<Id, CurrentUnit>
    requires Stored(leases, rows)
  {
    var first := FirstWins(leases, s, rows);
    map t | t in first :: LabelledUnit(first[t].unit, unitLabels)
  }

  datatype CountRow = CountRow(tenant: Id, count: nat)

  // The answer to the counting query: one row for each tenant with a count.
  ghost predicate IsGrouped(leases: map<Id, Lease>, org: Id, tenants: seq<Id>, grouped: seq<CountRow>) {
    && (forall i, j :: 0 <= i < j < |grouped| ==> grouped[i].tenant != grouped[j].tenant)
    && (forall k :: 0 <= k < |grouped| ==>
          grouped[k].tenant in tenants && grouped[k].count == ActiveCount(leases, org, grouped[k].tenant) > 0)
    && (forall t :: t in tenants && ActiveCount(leases, org, t) > 0 ==> exists k :: 0 <= k < |grouped| && grouped[k].tenant == t)
  }

  // The pass over the counting query's answer.
  method CountsByTenant(leases: map<Id, Lease>, org: Id, tenants: seq<Id>, grouped: seq<CountRow>) returns (counts: map<Id, nat>)
    requires IsGrouped(leases, org, tenants, grouped)
    ensures counts == ActiveCounts(leases, org, tenants)
  {
    hide IsGrouped, ActiveCounts;
    counts := map[];
    for i := 0 to |grouped|
      invariant forall t :: t in counts <==> exists k :: 0 <= k < i && grouped[k].tenant == t
      invariant forall k :: 0 <= k < i ==> grouped[k].tenant in counts
      invariant forall k :: 0 <= k < i && (forall j :: k < j < i ==> grouped[j].tenant != grouped[k].tenant) ==>
                  counts[grouped[k].tenant] == grouped[k].count
    {
      counts := counts[grouped[i].tenant := grouped[i].count];
    }
    CountsAreGrouped(leases, org, tenants, grouped, counts);
  }

  // tenants.Repository.ActiveLeaseStats; grouped and unitLabels are the answers to the counting and
  // the labels query.
  method ActiveLeaseStats(leases: map<Id, Lease>, grouped: seq<CountRow>, unitLabels: map<Id, string>,
                          org: Id, tenants: seq<Id>, rows: seq<Id>)
    returns (counts: map<Id, nat>, unitByTenant: map<Id, CurrentUnit>)
    requires Stored(leases, rows) && IsGrouped(leases, org, tenants, grouped)
    ensures counts == ActiveCounts(leases, org, tenants)
    ensures unitByTenant == CurrentUnits(leases, OfTenants(org, tenants), unitLabels, rows)
  {
    hide LabelledUnit, IsGrouped, ActiveCounts;
    counts := CountsByTenant(leases, org, tenants, grouped);
    unitByTenant := map[];
    var seen := {};
    for i := 0 to |rows|
      invariant seen == FirstWins(leases, OfTenants(org, tenants), rows[..i]).Keys
      invariant unitByTenant == CurrentUnits(leases, OfTenants(org, tenants), unitLabels, rows[..i])
    {
      assert rows[..i + 1][..i] == rows[..i];
      var l := leases[rows[i]];
      if l.tenant in seen {
        continue;
      }
      seen := seen + {l.tenant};
      unitByTenant := unitByTenant[l.tenant := LabelledUnit(l.unit, unitLabels)];
    }
    assert rows[..|rows|] == rows;
  }

  lemma CountsAreGrouped(leases: map<Id, Lease>, org: Id, tenants: seq<Id>, grouped: seq<CountRow>, counts: map<Id, nat>)
    requires IsGrouped(leases, org, tenants, grouped)
    requires forall t :: t in counts <==> exists k :: 0 <= k < |grouped| && grouped[k].tenant == t
    requires forall k :: 0 <= k < |grouped| ==> grouped[k].tenant in counts
    requires forall k :: 0 <= k < |grouped| && (forall j :: k < j < |grouped| ==> grouped[j].tenant != grouped[k].tenant) ==>
               counts[grouped[k].tenant] == grouped[k].count
    ensures counts == ActiveCounts(leases, org, tenants)
  {
    hide ActiveCount;
    forall t ensures t in counts <==> t in tenants && ActiveCount(leases, org, t) > 0
             ensures t in counts ==> counts[t] == ActiveCount(leases, org, t) {
      if t in counts {
        var k :| 0 <= k < |grouped| && grouped[k].tenant == t;
        assert counts[grouped[k].tenant] == grouped[k].count;
      }
    }
  }

  lemma CountedIffActive(leases: map<Id, Lease>, org: Id, tenants: seq<Id>, tenant: Id)
    ensures tenant in ActiveCounts(leases, org, tenants) <==> exists id :: InGroup(leases, OfTenants(org, tenants), tenant, id)
  {
    var ids := set id | id in leases && leases[id].org == org && leases[id].status == Active && leases[id].tenant == tenant;
    if id :| InGroup(leases, OfTenants(org, tenants), tenant, id) {
      assert id in ids;
    }
    if tenant in tenants && ids != {} {
      var id :| id in ids;
      assert InGroup(leases, OfTenants(org, tenants), tenant, id);
    }
  }

  // The view of a tenant: a current unit exactly when its active count is positive, and it is the
  // unit of a latest-updated active lease of the tenant.
  lemma TenantView(leases: map<Id, Lease>, org: Id, tenants: seq<Id>, unitLabels: map<Id, string>, rows: seq<Id>, t: Id)
    requires NewestFirst(leases, OfTenants(org, tenants), rows)
    ensures var out := CurrentUnits(leases, OfTenants(org, tenants), unitLabels, rows);
            && (t in out <==> t in ActiveCounts(leases, org, tenants))
            && (t in out ==> exists id :: IsLatest(leases, OfTenants(org, tenants), t, id) && out[t].unit == leases[id].unit)
            && (t in out ==> out[t].unitLabel == if out[t].unit in unitLabels then unitLabels[out[t].unit] else "")
  {
    hide FirstWins, ActiveCounts;
    FirstIsLatest(leases, OfTenants(org, tenants), rows, t);
    CountedIffActive(leases, org, tenants, t);
  }

  // Main result: after any run of successful lease requests the maps agree with the occupancy column.
  // A unit that was asked for has an active-lease entry exactly when it is a unit of the organization
  // marked occupied, and the current unit shown for a tenant is always such a unit.
  lemma ViewsAgreeWithOccupancy(enforced: bool, t: Tables, events: seq<Event>, org: Id,
                                units: seq<Id>, unitRows: seq<Id>, tenants: seq<Id>, tenantRows: seq<Id>, unitLabels: map<Id, string>)
    requires Scoped(t) && Agrees(t) && AllDone(enforced, t, events)
    requires var leases := Run(enforced, t, events).leases;
             && NewestFirst(leases, OnUnits(org, units), unitRows) && NewestFirst(leases, OfTenants(org, tenants), tenantRows)
    ensures var after := Run(enforced, t, events);
            && (forall u :: u in FirstWins(after.leases, OnUnits(org, units), unitRows)
                  <==> u in units && u in after.units && after.units[u] == Unit(org, Occupied))
            && (forall tenant :: tenant in CurrentUnits(after.leases, OfTenants(org, tenants), unitLabels, tenantRows) ==>
                  var u := CurrentUnits(after.leases, OfTenants(org, tenants), unitLabels, tenantRows)[tenant].unit;
                  u in after.units && after.units[u] == Unit(org, Occupied))
  {
    hide Run, AllDone, FirstWins, CurrentUnits, HasActive, Scoped, Agrees;
    OccupancyRun(enforced, t, events);
    var after := Run(enforced, t, events);
    forall u ensures u in FirstWins(after.leases, OnUnits(org, units), unitRows)
                     <==> u in units && u in after.units && after.units[u] == Unit(org, Occupied) {
      UnitView(after.leases, org, units, unitRows, u);
      ActiveMeansOccupied(after, org, u);
    }
    forall tenant | tenant in CurrentUnits(after.leases, OfTenants(org, tenants), unitLabels, tenantRows)
      ensures var u := CurrentUnits(after.leases, OfTenants(org, tenants), unitLabels, tenantRows)[tenant].unit;
              u in after.units && after.units[u] == Unit(org, Occupied)
    {
      TenantView(after.leases, org, tenants, unitLabels, tenantRows, tenant);
      var out := CurrentUnits(after.leases, OfTenants(org, tenants), unitLabels, tenantRows);
      var id :| IsLatest(after.leases, OfTenants(org, tenants), tenant, id) && out[tenant].unit == after.leases[id].unit;
      assert HasActive(after.leases, org, after.leases[id].unit) by { GroupIsActive(after.leases, org, tenants, tenant, id); }
      ActiveMeansOccupied(after, org, after.leases[id].unit);
    }
  }

  lemma GroupIsActive(leases: map<Id, Lease>, org: Id, tenants: seq<Id>, tenant: Id, id: Id)
    requires InGroup(leases, OfTenants(org, tenants), tenant, id)
    ensures HasActive(leases, org, leases[id].unit)
  {
  }

  lemma ActiveMeansOccupied(t: Tables, org: Id, u: Id)
    requires Scoped(t) && Agrees(t)
    ensures HasActive(t.leases, org, u) <==> u in t.units && t.units[u] == Unit(org, Occupied)
  {
    if u in t.units {
      AgreesOnUnit(t, u);
    }
  }
}
