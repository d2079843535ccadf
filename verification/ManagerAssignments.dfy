/** Which buildings a manager is assigned to: normalising the requested ids, validating them by
    counting, and replacing the stored rows. */
module ManagerAssignments {
  import opened Common
  import Text

  // ---- normalising ----

  function Trimmed(ids: seq<string>): seq<string> {
    seq(|ids|, i requires 0 <= i < |ids| => Text.TrimSpace(ids[i]))
  }

  // Blank entries dropped, and of equal ones all but the first.
  function FirstMentions(ids: seq<string>): seq<string> {
    if ids == [] then []
    else
      var front := FirstMentions(ids[..|ids| - 1]);
      var v := ids[|ids| - 1];
      if v == "" || v in front then front else front + [v]
  }

  function Normalized(ids: seq<string>): seq<string> {
    FirstMentions(Trimmed(ids))
  }

  // normalizeStringIDs
  method NormalizeStringIDs(ids: seq<string>) returns (out: seq<string>)
    ensures out == Normalized(ids)
  {
    hide Text.TrimSpace;
    out := [];
    var seen := {};
    ghost var all := Trimmed(ids);
    for i := 0 to |ids|
      invariant out == FirstMentions(all[..i])
      invariant seen == set v | v in out
    {
      assert all[..i + 1][..i] == all[..i];
      var v := Text.TrimSpace(ids[i]);
      if v == "" || v in seen {
        continue;
      }
      seen := seen + {v};
      out := out + [v];
    }
    assert all[..|ids|] == all;
  }

  predicate Distinct(ids: seq<string>) {
    forall i, j :: 0 <= i < j < |ids| ==> ids[i] != ids[j]
  }

  predicate Clean(ids: seq<string>) {
    Distinct(ids) && forall v :: v in ids ==> v != "" && Text.TrimSpace(v) == v
  }

  // Where an id is first mentioned.
  function FirstAt(ids: seq<string>, v: string): (k: nat)
    requires v in ids
    ensures k < |ids| && ids[k] == v && v !in ids[..k]
  {
    if ids[0] == v then 0
    else
      var k := FirstAt(ids[1..], v);
      assert ids[..k + 1] == [ids[0]] + ids[1..][..k];
      k + 1
  }

  lemma FirstAtUnique(ids: seq<string>, v: string, k: nat)
    requires k < |ids| && ids[k] == v && v !in ids[..k]
    ensures FirstAt(ids, v) == k
  {
    hide FirstAt;
    var f := FirstAt(ids, v);
    assert forall x :: 0 <= x < k ==> ids[..k][x] == ids[x] != v;
    assert forall x :: 0 <= x < f ==> ids[..f][x] == ids[x] != v;
  }

  // The first mentions are all the non-blank ids, each once, in order of first mention.
  lemma {:induction false} FirstMentionsExact(ids: seq<string>)
    ensures Distinct(FirstMentions(ids))
    ensures forall v :: v in FirstMentions(ids) <==> v != "" && v in ids
    decreases |ids|
  {
    if ids != [] {
      var n := |ids| - 1;
      FirstMentionsExact(ids[..n]);
      assert ids == ids[..n] + [ids[n]];
    }
  }

  lemma {:induction false} FirstMentionsInOrder(ids: seq<string>, i: nat, j: nat)
    requires i < j < |FirstMentions(ids)|
    ensures FirstMentions(ids)[i] in ids && FirstMentions(ids)[j] in ids
    ensures FirstAt(ids, FirstMentions(ids)[i]) < FirstAt(ids, FirstMentions(ids)[j])
    decreases |ids|
  {
    hide FirstAt;
    FirstMentionsExact(ids);
    var n := |ids| - 1;
    var earlier, front := ids[..n], FirstMentions(ids[..n]);
    FirstMentionsExact(earlier);
    assert ids == earlier + [ids[n]];
    assert front[i] in front;
    FirstAtFront(earlier, ids[n], front[i]);
    if j < |front| {
      assert front[j] in front;
      FirstMentionsInOrder(earlier, i, j);
      FirstAtFront(earlier, ids[n], front[j]);
    } else {
      FirstAtUnique(ids, ids[n], n);
    }
  }

  lemma FirstAtFront(ids: seq<string>, last: string, v: string)
    requires v in ids
    ensures FirstAt(ids + [last], v) == FirstAt(ids, v)
  {
    var k := FirstAt(ids, v);
    assert (ids + [last])[..k] == ids[..k];
    FirstAtUnique(ids + [last], v, k);
  }

  // The normal form holds the non-blank trimmed ids, each once, in order of first mention.
  lemma NormalizedIsCanonical(ids: seq<string>)
    ensures Clean(Normalized(ids))
    ensures forall v :: v in Normalized(ids) <==> v != "" && v in Trimmed(ids)
    ensures forall i, j :: 0 <= i < j < |Normalized(ids)| ==>
              && Normalized(ids)[i] in Trimmed(ids) && Normalized(ids)[j] in Trimmed(ids)
              && FirstAt(Trimmed(ids), Normalized(ids)[i]) < FirstAt(Trimmed(ids), Normalized(ids)[j])
  {
    hide Text.TrimSpace, FirstAt, FirstMentions;
    FirstMentionsExact(Trimmed(ids));
    forall v | v in Trimmed(ids) ensures Text.TrimSpace(v) == v {
      var k :| 0 <= k < |ids| && v == Text.TrimSpace(ids[k]);
      Text.TrimSpaceTwice(ids[k]);
    }
    forall i, j | 0 <= i < j < |Normalized(ids)|
      ensures && Normalized(ids)[i] in Trimmed(ids) && Normalized(ids)[j] in Trimmed(ids)
              && FirstAt(Trimmed(ids), Normalized(ids)[i]) < FirstAt(Trimmed(ids), Normalized(ids)[j])
    {
      FirstMentionsInOrder(Trimmed(ids), i, j);
    }
  }

  lemma {:induction false} DistinctMentionedOnce(ids: seq<string>)
    requires Distinct(ids) && "" !in ids
    ensures FirstMentions(ids) == ids
    decreases |ids|
  {
    if ids != [] {
      var n := |ids| - 1;
      assert ids == ids[..n] + [ids[n]];
      assert ids[n] in ids && ids[n] !in ids[..n];
      DistinctMentionedOnce(ids[..n]);
    }
  }

  lemma NormalizedFixed(ids: seq<string>)
    requires Clean(ids)
    ensures Normalized(ids) == ids
  {
    hide Text.TrimSpace, FirstMentions;
    assert forall k :: 0 <= k < |ids| ==> ids[k] in ids;
    assert Trimmed(ids) == ids;
    DistinctMentionedOnce(ids);
  }

  lemma NormalizedIdempotent(ids: seq<string>)
    ensures Normalized(Normalized(ids)) == Normalized(ids)
  {
    NormalizedIsCanonical(ids);
    NormalizedFixed(Normalized(ids));
  }

  // ---- validating ----

  // buildings maps each building to its organization.
  function CountBuildingsInOrg(buildings: map<Id, Id>, org: Id, ids: seq<Id>): nat {
    |set b | b in buildings && buildings[b] == org && b in ids|
  }

  predicate Valid(buildings: map<Id, Id>, org: Id, ids: seq<Id>) {
    ids == [] || |ids| == CountBuildingsInOrg(buildings, org, ids)
  }

  predicate AllInOrg(buildings: map<Id, Id>, org: Id, ids: seq<Id>) {
    forall b :: b in ids ==> b in buildings && buildings[b] == org
  }

  function Elements(ids: seq<Id>): set<Id> {
    set b | b in ids
  }

  lemma LastDecidesDistinct(ids: seq<Id>)
    requires ids != []
    ensures var n := |ids| - 1; Distinct(ids) <==> Distinct(ids[..n]) && ids[n] !in ids[..n]
    ensures var n := |ids| - 1; Elements(ids) == Elements(ids[..n]) + {ids[n]}
  {
    var n := |ids| - 1;
    assert ids == ids[..n] + [ids[n]];
    if ids[n] in ids[..n] {
      var k :| 0 <= k < n && ids[..n][k] == ids[n];
      assert ids[k] == ids[n];
    }
  }

  lemma {:induction false} DistinctCount(ids: seq<Id>)
    ensures |Elements(ids)| <= |ids|
    ensures |Elements(ids)| == |ids| <==> Distinct(ids)
    decreases |ids|
  {
    if ids == [] {
      assert Elements(ids) == {};
    } else {
      var n := |ids| - 1;
      DistinctCount(ids[..n]);
      LastDecidesDistinct(ids);
      assert ids[n] in Elements(ids[..n]) <==> ids[n] in ids[..n];
      hide Distinct, Elements;
      if ids[n] in ids[..n] {
        assert Elements(ids) == Elements(ids[..n]);
      }
    }
  }

  // Main result: counting is enough, and repeats are all it trips over. For any ids the count equals
  // the length exactly when they are distinct and every one is a building of the organization.
  lemma CountDecidesMembership(buildings: map<Id, Id>, org: Id, ids: seq<Id>)
    ensures Valid(buildings, org, ids) <==> Distinct(ids) && AllInOrg(buildings, org, ids)
  {
    hide Distinct;
    var wanted := Elements(ids);
    var found := set b | b in buildings && buildings[b] == org && b in ids;
    DistinctCount(ids);
    SameSizeSubset(found, wanted);
    assert forall b :: b in ids <==> b in wanted;
    assert AllInOrg(buildings, org, ids) <==> wanted <= found;
    if ids == [] {
      assert wanted == {};
    }
  }

  lemma SameSizeSubset(a: set<Id>, b: set<Id>)
    requires a <= b
    ensures |a| <= |b| && (|a| == |b| <==> a == b)
  {
    assert |b - a| == |b| - |a|;
    assert a == b - (b - a);
  }

  // ---- the stored rows ----

  datatype Assignment = Assignment(org: Id, user: Id, building: Id)
  datatype User = User(org: Id, isManager: bool)
  datatype Tables = Tables(users: map<Id, User>, rows: seq<Assignment>)

  datatype Reply = Done | Forbidden | NotFound | Validation | Conflict | Internal

  // Any database call of a request may fail; a failed call writes nothing, and neither does a
  // replacement of assignments whose transaction fails anywhere.
  datatype Call = Lookup | UserWrite | Refresh | Count | Replacement | Listing

  // isManager: the role the request asks for, if any; otherFields: it changes some other column.
  datatype Request =
    | Create(org: Id, newId: Id, allowed: bool, isManager: bool, buildingIds: seq<string>, faults: set<Call>)
    | Patch(org: Id, id: Id, allowed: bool, role: Option<bool>, otherFields: bool, ids: Option<seq<string>>, faults: set<Call>)

  function Without(rows: seq<Assignment>, org: Id, user: Id): seq<Assignment> {
    if rows == [] then []
    else
      var front := Without(rows[..|rows| - 1], org, user);
      var last := rows[|rows| - 1];
      if last.org == org && last.user == user then front else front + [last]
  }

  function RowsFor(org: Id, user: Id, ids: seq<Id>): seq<Assignment> {
    seq(|ids|, i requires 0 <= i < |ids| => Assignment(org, user, ids[i]))
  }

  function Replaced(rows: seq<Assignment>, org: Id, user: Id, ids: seq<Id>): seq<Assignment> {
    Without(rows, org, user) + RowsFor(org, user, ids)
  }

  // The validated replacement both requests end with.
  function AssignStep(t: Tables, buildings: map<Id, Id>, org: Id, user: Id, ids: seq<Id>, faults: set<Call>): (Tables, Reply) {
    if ids != [] && Count in faults then (t, Internal)
    else if !Valid(buildings, org, ids) then (t, Validation)
    else if Replacement in faults then (t, Internal)
    else (t.(rows := Replaced(t.rows, org, user, ids)), Done)
  }

  // Create stores the user before it looks at the buildings.
  function CreateStep(t: Tables, buildings: map<Id, Id>, req: Request): (Tables, Reply)
    requires req.Create?
  {
    if !req.allowed then (t, Forbidden)
    else if Lookup in req.faults then (t, Internal)
    else if UserWrite in req.faults || req.newId in t.users then (t, Conflict)
    else
      var t1 := t.(users := t.users[req.newId := User(req.org, req.isManager)]);
      if req.isManager then AssignStep(t1, buildings, req.org, req.newId, Normalized(req.buildingIds), req.faults)
      else (t1, Done)
  }

  function PatchStep(t: Tables, buildings: map<Id, Id>, req: Request): (Tables, Reply)
    requires req.Patch?
  {
    if !req.allowed then (t, Forbidden)
    else if Lookup in req.faults then (t, Internal)
    else if req.id !in t.users || t.users[req.id].org != req.org then (t, NotFound)
    else if req.role.None? && !req.otherFields then (t, Done)
    else if UserWrite in req.faults then (t, Internal)
    else
      var isManager := if req.role.Some? then req.role.value else t.users[req.id].isManager;
      var t1 := t.(users := t.users[req.id := User(req.org, isManager)]);
      if Refresh in req.faults then (t1, Internal)
      else if isManager then
        var ids := if req.ids.Some? then Normalized(req.ids.value) else [];
        var (t2, reply) := AssignStep(t1, buildings, req.org, req.id, ids, req.faults);
        (t2, if reply == Done && Listing in req.faults then Internal else reply)
      else if req.ids.None? then (t1, Done)
      else if Replacement in req.faults then (t1, Internal)
      else (t1.(rows := Replaced(t1.rows, req.org, req.id, [])), Done)
  }

  function Next(t: Tables, buildings: map<Id, Id>, req: Request): (Tables, Reply) {
    if req.Create? then CreateStep(t, buildings, req) else PatchStep(t, buildings, req)
  }

  // A request, and the buildings there are at its time.
  datatype Event = Event(buildings: map<Id, Id>, req: Request)

  function Run(t: Tables, events: seq<Event>): Tables
    decreases |events|
  {
    if events == [] then t else Run(Next(t, events[0].buildings, events[0].req).0, events[1..])
  }

  // The ids a replacement inserts: trimmed, blank ones skipped, repeats kept.
  function Entries(ids: seq<string>): seq<string> {
    if ids == [] then []
    else
      var v := Text.TrimSpace(ids[|ids| - 1]);
      Entries(ids[..|ids| - 1]) + if v == "" then [] else [v]
  }

  lemma {:induction false} EntriesOfClean(ids: seq<string>)
    requires Clean(ids)
    ensures Entries(ids) == ids
    decreases |ids|
  {
    hide Text.TrimSpace;
    if ids != [] {
      var n := |ids| - 1;
      assert ids == ids[..n] + [ids[n]];
      assert ids[n] in ids && forall v :: v in ids[..n] ==> v in ids;
      EntriesOfClean(ids[..n]);
    }
  }

  lemma {:induction false} WithoutLeavesNone(rows: seq<Assignment>, org: Id, user: Id)
    ensures forall r :: r in Without(rows, org, user) ==> !(r.org == org && r.user == user)
    decreases |rows|
  {
    if rows != [] {
      WithoutLeavesNone(rows[..|rows| - 1], org, user);
    }
  }

  lemma RowsForHas(org: Id, user: Id, ids: seq<Id>, v: Id)
    ensures Assignment(org, user, v) in RowsFor(org, user, ids) <==> v in ids
  {
    if v in ids {
      var k :| 0 <= k < |ids| && ids[k] == v;
      assert RowsFor(org, user, ids)[k] == Assignment(org, user, v);
    }
  }

  class Service {
    var buildings: map<Id, Id>
    var users: map<Id, User>
    var rows: seq<Assignment>

    constructor (buildings: map<Id, Id>, t: Tables)
      ensures this.buildings == buildings && Contents() == t
    {
      this.buildings := buildings;
      users, rows := t.users, t.rows;
    }

    function Contents(): Tables
      reads this
    {
      Tables(users, rows)
    }

    // ReplaceManagerBuildingAssignments, in one transaction: delete the user's rows, insert the new
    // ones. The unique index refuses a row that exists, and a refusal or failure undoes everything.
    method Replace(org: Id, user: Id, ids: seq<string>, faults: set<Call>) returns (ok: bool)
      modifies this`rows
      ensures ok <==> Replacement !in faults && Distinct(Entries(ids))
      ensures rows == if ok then Replaced(old(rows), org, user, Entries(ids)) else old(rows)
    {
      hide Text.TrimSpace;
      if Replacement in faults { return false; }
      var kept := [];
      for i := 0 to |rows|
        invariant kept == Without(rows[..i], org, user)
      {
        assert rows[..i + 1][..i] == rows[..i];
        if rows[i].org != org || rows[i].user != user { kept := kept + [rows[i]]; }
      }
      assert rows[..|rows|] == rows;
      WithoutLeavesNone(rows, org, user);
      var after := kept;
      for i := 0 to |ids|
        invariant rows == old(rows) && after == kept + RowsFor(org, user, Entries(ids[..i])) && Distinct(Entries(ids[..i]))
      {
        assert ids[..i + 1][..i] == ids[..i];
        var bid := Text.TrimSpace(ids[i]);
        if bid == "" { continue; }
        ghost var done := Entries(ids[..i]);
        assert Entries(ids[..i + 1]) == done + [bid];
        RowsForHas(org, user, done, bid);
        if Assignment(org, user, bid) in after {
          RepeatsStay(ids, i);
          return false;
        }
        after := after + [Assignment(org, user, bid)];
        assert RowsFor(org, user, done + [bid]) == RowsFor(org, user, done) + [Assignment(org, user, bid)];
      }
      assert ids[..|ids|] == ids;
      rows := after;
      return true;
    }

    // The validated replacement both requests end with.
    method Assign(org: Id, user: Id, ids: seq<Id>, faults: set<Call>) returns (reply: Reply)
      requires Clean(ids)
      modifies this`rows
      ensures (Contents(), reply) == AssignStep(old(Contents()), buildings, org, user, ids, faults)
    {
      hide Valid, Replaced, Text.TrimSpace;
      if ids != [] && Count in faults { return Internal; }
      if !Valid(buildings, org, ids) { return Validation; }
      EntriesOfClean(ids);
      var ok := Replace(org, user, ids, faults);
      if !ok { return Internal; }
      return Done;
    }

    method Create(req: Request) returns (reply: Reply)
      requires req.Create?
      modifies this`users, this`rows
      ensures (Contents(), reply) == CreateStep(old(Contents()), buildings, req)
    {
      hide Normalized, AssignStep, Replaced, Valid;
      if !req.allowed { return Forbidden; }
      if Lookup in req.faults { return Internal; }
      if UserWrite in req.faults || req.newId in users { return Conflict; }
      users := users[req.newId := User(req.org, req.isManager)];
      var assignments := NormalizeStringIDs(req.buildingIds);
      CanonicalIsClean(req.buildingIds);
      if req.isManager {
        reply := Assign(req.org, req.newId, assignments, req.faults);
        return;
      }
      return Done;
    }

    method Patch(req: Request) returns (reply: Reply)
      requires req.Patch?
      modifies this`users, this`rows
      ensures (Contents(), reply) == PatchStep(old(Contents()), buildings, req)
    {
      hide Normalized, AssignStep, Replaced, Valid;
      if !req.allowed { return Forbidden; }
      if Lookup in req.faults { return Internal; }
      if req.id !in users || users[req.id].org != req.org { return NotFound; }
      var assignments := [];
      if req.ids.Some? {
        assignments := NormalizeStringIDs(req.ids.value);
        CanonicalIsClean(req.ids.value);
      }
      if req.role.None? && !req.otherFields { return Done; }
      if UserWrite in req.faults { return Internal; }
      if req.role.Some? { users := users[req.id := User(req.org, req.role.value)]; }
      assert users == old(users)[req.id := users[req.id]];
      if Refresh in req.faults { return Internal; }
      var isManager := users[req.id].isManager;
      if req.ids.Some? || isManager {
        if isManager {
          reply := Assign(req.org, req.id, assignments, req.faults);
          if reply != Done { return; }
        } else {
          var ok := Replace(req.org, req.id, [], req.faults);
          if !ok { return Internal; }
        }
      }
      if isManager && Listing in req.faults { return Internal; }
      return Done;
    }
  }

  lemma CanonicalIsClean(ids: seq<string>)
    ensures Clean(Normalized(ids))
  {
    NormalizedIsCanonical(ids);
  }

  // Once two inserted ids are equal they stay so, whatever ids follow.
  lemma RepeatsStay(ids: seq<string>, i: nat)
    requires i < |ids| && Text.TrimSpace(ids[i]) != "" && Text.TrimSpace(ids[i]) in Entries(ids[..i])
    ensures !Distinct(Entries(ids))
  {
    hide Text.TrimSpace;
    var done := Entries(ids[..i]);
    var v := Text.TrimSpace(ids[i]);
    var k :| 0 <= k < |done| && done[k] == v;
    assert ids[..i + 1][..i] == ids[..i];
    assert Entries(ids[..i + 1]) == done + [v];
    EntriesGrow(ids, i + 1);
    assert Entries(ids)[k] == v && Entries(ids)[|done|] == v;
  }

  lemma {:induction false} EntriesGrow(ids: seq<string>, n: nat)
    requires n <= |ids|
    ensures Entries(ids[..n]) <= Entries(ids)
    decreases |ids|
  {
    hide Text.TrimSpace;
    if n == |ids| {
      assert ids[..n] == ids;
    } else {
      assert ids[..|ids| - 1][..n] == ids[..n];
      EntriesGrow(ids[..|ids| - 1], n);
    }
  }

  // ---- what every run keeps ----

  // No row twice, and every row a building of its own organization.
  ghost predicate Sound(rows: seq<Assignment>, buildings: map<Id, Id>) {
    && (forall i, j :: 0 <= i < j < |rows| ==> rows[i] != rows[j])
    && (forall r :: r in rows ==> r.building in buildings && buildings[r.building] == r.org)
  }

  lemma {:induction false} WithoutExact(rows: seq<Assignment>, buildings: map<Id, Id>, org: Id, user: Id)
    requires Sound(rows, buildings)
    ensures Sound(Without(rows, org, user), buildings)
    ensures forall r :: r in Without(rows, org, user) <==> r in rows && !(r.org == org && r.user == user)
    decreases |rows|
  {
    if rows != [] {
      var n := |rows| - 1;
      assert rows == rows[..n] + [rows[n]];
      WithoutExact(rows[..n], buildings, org, user);
      assert rows[n] !in rows[..n];
    }
  }

  lemma ReplacedSound(rows: seq<Assignment>, buildings: map<Id, Id>, org: Id, user: Id, ids: seq<Id>)
    requires Sound(rows, buildings) && Distinct(ids) && AllInOrg(buildings, org, ids)
    ensures Sound(Replaced(rows, org, user, ids), buildings)
    ensures forall r :: r in Replaced(rows, org, user, ids) <==>
              if r.org == org && r.user == user then r.building in ids else r in rows
  {
    WithoutExact(rows, buildings, org, user);
    var added := RowsFor(org, user, ids);
    assert forall i :: 0 <= i < |ids| ==> added[i] == Assignment(org, user, ids[i]) && ids[i] in ids;
    assert forall r :: r in added <==> r.org == org && r.user == user && r.building in ids;
  }

  lemma AssignKeepsSound(t: Tables, buildings: map<Id, Id>, org: Id, user: Id, ids: seq<Id>, faults: set<Call>)
    requires Sound(t.rows, buildings) && Distinct(ids)
    ensures Sound(AssignStep(t, buildings, org, user, ids, faults).0.rows, buildings)
  {
    hide Sound, Valid, AllInOrg, Replaced;
    CountDecidesMembership(buildings, org, ids);
    if Valid(buildings, org, ids) {
      ReplacedSound(t.rows, buildings, org, user, ids);
    }
  }

  lemma StepKeepsSound(t: Tables, buildings: map<Id, Id>, req: Request)
    requires Sound(t.rows, buildings)
    ensures Sound(Next(t, buildings, req).0.rows, buildings)
  {
    hide Sound, AssignStep, Replaced, Normalized, Distinct;
    if req.Create? {
      Canonical(req.buildingIds);
      var t1 := t.(users := t.users[req.newId := User(req.org, req.isManager)]);
      AssignKeepsSound(t1, buildings, req.org, req.newId, Normalized(req.buildingIds), req.faults);
    } else if req.id in t.users {
      var isManager := if req.role.Some? then req.role.value else t.users[req.id].isManager;
      var t1 := t.(users := t.users[req.id := User(req.org, isManager)]);
      var ids := if req.ids.Some? then Normalized(req.ids.value) else [];
      Canonical(if req.ids.Some? then req.ids.value else []);
      AssignKeepsSound(t1, buildings, req.org, req.id, ids, req.faults);
      NothingSound(t.rows, buildings, req.org, req.id);
    }
  }

  lemma Canonical(ids: seq<string>)
    ensures Distinct(Normalized(ids)) && Distinct([]) && Normalized([]) == []
  {
    NormalizedIsCanonical(ids);
  }

  lemma NothingSound(rows: seq<Assignment>, buildings: map<Id, Id>, org: Id, user: Id)
    requires Sound(rows, buildings)
    ensures Sound(Replaced(rows, org, user, []), buildings)
  {
    ReplacedSound(rows, buildings, org, user, []);
  }

  // Buildings come, and never go or change organization: deletion keeps the row that is counted.
  predicate Grown(a: map<Id, Id>, b: map<Id, Id>) {
    forall id :: id in a ==> id in b && b[id] == a[id]
  }

  predicate Growing(buildings: map<Id, Id>, events: seq<Event>)
    decreases |events|
  {
    events != [] ==> Grown(buildings, events[0].buildings) && Growing(events[0].buildings, events[1..])
  }

  function LastBuildings(buildings: map<Id, Id>, events: seq<Event>): map<Id, Id>
    decreases |events|
  {
    if events == [] then buildings else LastBuildings(events[0].buildings, events[1..])
  }

  lemma GrownKeepsSound(rows: seq<Assignment>, a: map<Id, Id>, b: map<Id, Id>)
    requires Sound(rows, a) && Grown(a, b)
    ensures Sound(rows, b)
  {
  }

  // Main result: over every run of creates and patches, whatever database calls fail and whatever
  // buildings are added on the way, the assignment rows stay duplicate free and point only at
  // buildings of their own organization.
  lemma {:induction false} RunKeepsSound(t: Tables, buildings: map<Id, Id>, events: seq<Event>)
    requires Sound(t.rows, buildings) && Growing(buildings, events)
    ensures Sound(Run(t, events).rows, LastBuildings(buildings, events))
    decreases |events|
  {
    hide Sound, Next, Grown;
    if events != [] {
      var e := events[0];
      GrownKeepsSound(t.rows, buildings, e.buildings);
      StepKeepsSound(t, e.buildings, e.req);
      RunKeepsSound(Next(t, e.buildings, e.req).0, e.buildings, events[1..]);
    }
  }

  // ---- exactly what one request does ----

  function UserOf(req: Request): Id {
    if req.Create? then req.newId else req.id
  }

  // The gates are open and a patch finds its user.
  predicate Opens(t: Tables, req: Request) {
    && req.allowed && Lookup !in req.faults
    && (req.Patch? ==> req.id in t.users && t.users[req.id].org == req.org)
  }

  // The request stores the user's row, whatever becomes of the assignments.
  predicate StoresUser(t: Tables, req: Request) {
    && Opens(t, req) && UserWrite !in req.faults
    && (if req.Create? then req.newId !in t.users else req.role.Some? || req.otherFields)
  }

  predicate ManagerAfter(t: Tables, req: Request)
    requires Opens(t, req)
  {
    if req.Create? then req.isManager else if req.role.Some? then req.role.value else t.users[req.id].isManager
  }

  // The buildings the user is to be left with.
  function Wanted(t: Tables, req: Request): seq<Id>
    requires Opens(t, req)
  {
    if req.Create? then Normalized(req.buildingIds)
    else if req.ids.Some? && ManagerAfter(t, req) then Normalized(req.ids.value)
    else []
  }

  // The request replaces the user's assignments: every gate and call before the listing passes, the
  // wanted ids are all buildings of the organization, and there is something to replace.
  predicate Reassigns(t: Tables, buildings: map<Id, Id>, req: Request) {
    && StoresUser(t, req) && (req.Patch? ==> Refresh !in req.faults)
    && (if ManagerAfter(t, req) then
          (Wanted(t, req) != [] ==> Count !in req.faults) && AllInOrg(buildings, req.org, Wanted(t, req))
        else req.Patch? && req.ids.Some?)
    && Replacement !in req.faults
  }

  // Main result on one request, with any failures: the user's row is stored exactly when the gates and
  // that write pass, even if the request then fails; the assignments are replaced exactly when it
  // reassigns, even if the final listing then fails, and otherwise stay as they were.
  lemma RequestExact(t: Tables, buildings: map<Id, Id>, req: Request)
    requires Sound(t.rows, buildings)
    ensures var (after, reply) := Next(t, buildings, req);
            var user := UserOf(req);
            && after.users == (if StoresUser(t, req) then t.users[user := User(req.org, ManagerAfter(t, req))] else t.users)
            && (if Reassigns(t, buildings, req) then
                  forall r :: r in after.rows <==>
                    if r.org == req.org && r.user == user then r.building in Wanted(t, req) else r in t.rows
                else after.rows == t.rows)
            && (reply == Done <==>
                  if req.Create? then StoresUser(t, req) && (req.isManager ==> Reassigns(t, buildings, req))
                  else
                    || (Opens(t, req) && req.role.None? && !req.otherFields)
                    || (Reassigns(t, buildings, req) && (ManagerAfter(t, req) ==> Listing !in req.faults))
                    || (StoresUser(t, req) && Refresh !in req.faults && !ManagerAfter(t, req) && req.ids.None?))
  {
    hide Sound, Valid, AllInOrg, Replaced, Normalized, Clean, Distinct;
    var wanted := if req.Create? then req.buildingIds else if req.ids.Some? then req.ids.value else [];
    var ids := Normalized(wanted);
    Canonical(wanted);
    CountDecidesMembership(buildings, req.org, ids);
    EmptyIsFine(buildings, req.org);
    ReplacedSound(t.rows, buildings, req.org, UserOf(req), []);
    if Valid(buildings, req.org, ids) {
      ReplacedSound(t.rows, buildings, req.org, UserOf(req), ids);
    }
  }

  // What a patch's building ids come to: nothing at all when it changes no other field, and no
  // assignment left when a manager is patched without ids. A patch that fails leaves the rows as they
  // were, unless it reassigned them and only the final listing failed.
  lemma PatchedAssignments(t: Tables, buildings: map<Id, Id>, req: Request, b: Id)
    requires Sound(t.rows, buildings) && req.Patch?
    ensures Opens(t, req) && req.faults == {} ==>
              (Next(t, buildings, req).1 == Done <==>
                 || (req.role.None? && !req.otherFields) || !ManagerAfter(t, req) || req.ids.None?
                 || AllInOrg(buildings, req.org, Normalized(req.ids.value)))
    ensures var (after, reply) := Next(t, buildings, req);
            var row := Assignment(req.org, req.id, b);
            && (reply != Done ==>
                  if Reassigns(t, buildings, req)
                  then ManagerAfter(t, req) && Listing in req.faults && (row in after.rows <==> b in Wanted(t, req))
                  else after.rows == t.rows)
            && (reply == Done ==>
                  && Opens(t, req)
                  && (req.role.None? && !req.otherFields ==> after == t)
                  && (req.role.Some? || req.otherFields ==>
                        var manager := ManagerAfter(t, req);
                        && (manager && req.ids.None? ==> row !in after.rows)
                        && (manager && req.ids.Some? ==> (row in after.rows <==> b in Normalized(req.ids.value)))
                        && (!manager && req.ids.Some? ==> row !in after.rows)
                        && (!manager && req.ids.None? ==> after.rows == t.rows)))
  {
    hide Sound, Next, AllInOrg, Normalized;
    RequestExact(t, buildings, req);
    EmptyIsFine(buildings, req.org);
  }

  lemma EmptyIsFine(buildings: map<Id, Id>, org: Id)
    ensures Valid(buildings, org, []) && AllInOrg(buildings, org, []) && Normalized([]) == []
  {
  }

  // A manager of one building. A patch that only names other ids succeeds and changes nothing; a patch
  // that changes a name and names no ids removes the building, even when its final listing fails and
  // it reports an error.
  lemma PatchesMislead() returns (t: Tables, buildings: map<Id, Id>, idsOnly: Request, noIds: Request)
    ensures Sound(t.rows, buildings) && t.rows != [] && idsOnly.Patch? && noIds.Patch?
    ensures idsOnly.ids == Some([]) && Next(t, buildings, idsOnly) == (t, Done)
    ensures noIds.ids == None && Next(t, buildings, noIds).1 == Internal && Next(t, buildings, noIds).0.rows == []
  {
    buildings := map["b" := "org"];
    t := Tables(map["m" := User("org", true)], [Assignment("org", "m", "b")]);
    idsOnly := Patch("org", "m", true, None, false, Some([]), {});
    noIds := Patch("org", "m", true, None, true, None, {Listing});
    assert Without(t.rows, "org", "m") == [];
    assert Replaced(t.rows, "org", "m", []) == [];
  }
}
