/**
 The migration that makes worker identities global: people with the same
 normalized RUT are merged into the earliest one, references follow, and the
 duplicates are deleted. Tables are row sequences in scan order.
 */
module PeopleMerge {
  import opened Common

  type Id = int

  datatype Column = FirstName | LastName | Rut | Email | Phone | Address | Commune

  datatype Profile = Profile(
    firstName: Option<string>, lastName: Option<string>, rut: Option<string>, email: Option<string>,
    phone: Option<string>, address: Option<string>, commune: Option<string>)

  datatype Person = Person(
    id: Id, clientId: Option<Id>, rutNormalized: string, profile: Profile, createdAt: int, updatedAt: int)

  /** A row of document_employments or managed_documents; `rest` is every other column. */
  datatype Reference = Reference(id: Id, personId: Id, rest: string)

  function Get(p: Profile, c: Column): Option<string> {
    match c
    case FirstName => p.firstName
    case LastName => p.lastName
    case Rut => p.rut
    case Email => p.email
    case Phone => p.phone
    case Address => p.address
    case Commune => p.commune
  }

  lemma ColumnsOfProfile(p: Profile)
    ensures p == Profile(Get(p, FirstName), Get(p, LastName), Get(p, Rut), Get(p, Email), Get(p, Phone), Get(p, Address), Get(p, Commune))
  {
  }

  /** SQL trim(): spaces only. */
  function Trim(s: string): string {
    if s != "" && s[0] == ' ' then Trim(s[1..])
    else if s != "" && s[|s| - 1] == ' ' then Trim(s[..|s| - 1])
    else s
  }

  /** coalesce(nullif(trim(latest), ''), canonical) */
  function Coalesce(latest: Option<string>, canonical: Option<string>): Option<string> {
    if latest.Some? && Trim(latest.value) != "" then Some(Trim(latest.value)) else canonical
  }

  ghost predicate DistinctIds(people: seq<Person>) {
    forall i, j :: 0 <= i < j < |people| ==> people[i].id != people[j].id
  }

  predicate Before(p: Person, q: Person) {
    p.createdAt < q.createdAt || (p.createdAt == q.createdAt && p.id < q.id)
  }

  /** row_number() > 1 in its RUT partition. */
  predicate IsDuplicate(people: seq<Person>, p: Person) {
    exists q :: q in people && q.rutNormalized == p.rutNormalized && Before(q, p)
  }

  /** first_value(): the first row of a RUT partition by (created_at, id). */
  function First(people: seq<Person>, rut: string): Option<Person> {
    if people == [] then None
    else
      var p, best := people[|people| - 1], First(people[..|people| - 1], rut);
      if p.rutNormalized == rut && (best.None? || Before(p, best.value)) then Some(p) else best
  }

  /** document_person_merge: duplicate id to canonical id. */
  function MergeTable(people: seq<Person>, rows: seq<Person>): map<Id, Id> {
    if rows == [] then map[]
    else
      var p, merged := rows[|rows| - 1], MergeTable(people, rows[..|rows| - 1]);
      var first := First(people, p.rutNormalized);
      if IsDuplicate(people, p) && first.Some? then merged[p.id := first.value.id] else merged
  }

  predicate Fresher(p: Person, q: Person) {
    p.updatedAt > q.updatedAt || (p.updatedAt == q.updatedAt && p.id < q.id)
  }

  /** distinct on (canonical_id) ... order by updated_at desc, id */
  function Latest(people: seq<Person>, merged: map<Id, Id>, canonical: Id): Option<Person> {
    if people == [] then None
    else
      var p, best := people[|people| - 1], Latest(people[..|people| - 1], merged, canonical);
      if p.id in merged && merged[p.id] == canonical && (best.None? || Fresher(p, best.value)) then Some(p) else best
  }

  function MergeProfile(latest: Profile, canonical: Profile): Profile {
    Profile(
      Coalesce(latest.firstName, canonical.firstName), Coalesce(latest.lastName, canonical.lastName),
      Coalesce(latest.rut, canonical.rut), Coalesce(latest.email, canonical.email),
      Coalesce(latest.phone, canonical.phone), Coalesce(latest.address, canonical.address),
      Coalesce(latest.commune, canonical.commune))
  }

  /** The row the update statement leaves for p. */
  function UpdatedRow(people: seq<Person>, merged: map<Id, Id>, p: Person): Person {
    match Latest(people, merged, p.id)
    case None => p
    case Some(l) => p.(profile := MergeProfile(l.profile, p.profile),
                       updatedAt := if p.updatedAt < l.updatedAt then l.updatedAt else p.updatedAt)
  }

  /** The surviving rows, updated and without client. */
  function MergeRows(people: seq<Person>, merged: map<Id, Id>, rows: seq<Person>): seq<Person> {
    if rows == [] then []
    else
      var p, rest := rows[|rows| - 1], MergeRows(people, merged, rows[..|rows| - 1]);
      if p.id in merged then rest else rest + [UpdatedRow(people, merged, p).(clientId := None)]
  }

  function MergePeople(people: seq<Person>): seq<Person> {
    MergeRows(people, MergeTable(people, people), people)
  }

  function Repoint(merged: map<Id, Id>, rows: seq<Reference>): (r: seq<Reference>)
    ensures |r| == |rows|
    ensures forall i :: 0 <= i < |rows| ==>
              r[i] == rows[i].(personId := if rows[i].personId in merged then merged[rows[i].personId] else rows[i].personId)
  {
    if rows == [] then []
    else
      var e := rows[|rows| - 1];
      Repoint(merged, rows[..|rows| - 1])
      + [e.(personId := if e.personId in merged then merged[e.personId] else e.personId)]
  }

  // ---------------------------------------------------------------------
  // The unique (client_id, lower(email)) index, still in force during the update.
  // ---------------------------------------------------------------------

  predicate SameKey(p: Person, q: Person, lower: string -> string) {
    && p.clientId.Some? && p.clientId == q.clientId
    && p.profile.email.Some? && q.profile.email.Some?
    && lower(p.profile.email.value) == lower(q.profile.email.value)
  }

  /** Rows with no client or no email never share a key. */
  lemma NullsShareNoKey(p: Person, q: Person, lower: string -> string)
    ensures SameKey(p, q, lower) == SameKey(q, p, lower)
    ensures SameKey(p, q, lower) ==> p.clientId != None && q.clientId != None && p.profile.email != None && q.profile.email != None
    ensures forall c, d, e, f :: p.clientId == Some(c) && q.clientId == Some(d) && p.profile.email == Some(e) && q.profile.email == Some(f) ==>
              (SameKey(p, q, lower) <==> c == d && lower(e) == lower(f))
  {
  }

  /** The table once the rows whose indices are in `written` have been updated. */
  function Midway(people: seq<Person>, merged: map<Id, Id>, written: set<nat>): (r: seq<Person>)
    ensures |r| == |people|
    ensures forall j :: 0 <= j < |people| ==> r[j] == if j in written then UpdatedRow(people, merged, people[j]) else people[j]
  {
    seq(|people|, j requires 0 <= j < |people| => if j in written then UpdatedRow(people, merged, people[j]) else people[j])
  }

  /** Writing row i violates the index, given the rows written before it. */
  predicate Clashes(people: seq<Person>, merged: map<Id, Id>, written: set<nat>, i: nat, lower: string -> string)
    requires i < |people|
  {
    && Latest(people, merged, people[i].id).Some?
    && exists j :: 0 <= j < |people| && j != i
         && SameKey(UpdatedRow(people, merged, people[i]), Midway(people, merged, written)[j], lower)
  }

  /** An order in which the update may visit the rows: each of them once. */
  predicate IsOrder(order: seq<nat>, n: nat) {
    && (forall k :: 0 <= k < |order| ==> order[k] < n)
    && (forall i :: 0 <= i < n ==> i in order)
    && (forall k, l :: 0 <= k < l < |order| ==> order[k] != order[l])
  }

  function Visited(order: seq<nat>): (v: set<nat>)
    ensures forall i :: i in v <==> i in order
  {
    set i | i in order
  }

  /** The update goes through in this order. */
  predicate GoesThrough(people: seq<Person>, merged: map<Id, Id>, order: seq<nat>, lower: string -> string)
    requires IsOrder(order, |people|)
  {
    forall k :: 0 <= k < |order| ==> !Clashes(people, merged, Visited(order[..k]), order[k], lower)
  }

  /** Checkable before the migration: no row that is going to be written has an email that another person
      of its client has now or is going to have. */
  predicate NoEmailClash(people: seq<Person>, lower: string -> string) {
    var merged := MergeTable(people, people);
    forall i, j :: 0 <= i < |people| && 0 <= j < |people| && i != j && Latest(people, merged, people[i].id).Some? ==>
      var row := UpdatedRow(people, merged, people[i]);
      && !SameKey(row, people[j], lower)
      && !SameKey(row, UpdatedRow(people, merged, people[j]), lower)
  }

  function AllUpdated(people: seq<Person>, merged: map<Id, Id>): (r: seq<Person>)
    ensures |r| == |people|
    ensures forall j :: 0 <= j < |people| ==> r[j] == UpdatedRow(people, merged, people[j])
  {
    seq(|people|, j requires 0 <= j < |people| => UpdatedRow(people, merged, people[j]))
  }

  lemma WriteRow(people: seq<Person>, merged: map<Id, Id>, order: seq<nat>, k: nat)
    requires k < |order| && order[k] < |people|
    ensures var i, before := order[k], Midway(people, merged, Visited(order[..k]));
            Midway(people, merged, Visited(order[..k + 1]))
              == if Latest(people, merged, people[i].id).Some? then before[i := UpdatedRow(people, merged, people[i])] else before
  {
    assert order[..k + 1] == order[..k] + [order[k]];
  }

  lemma AllVisited(people: seq<Person>, merged: map<Id, Id>, order: seq<nat>)
    requires IsOrder(order, |people|)
    ensures Midway(people, merged, Visited(order)) == AllUpdated(people, merged)
  {
  }

  class DocumentTables {
    const lower: string -> string
    var people: seq<Person>
    var employments: seq<Reference>
    var documents: seq<Reference>
    var merged: map<Id, Id>

    constructor (lower: string -> string, people: seq<Person>, employments: seq<Reference>, documents: seq<Reference>)
      ensures this.lower == lower && this.people == people && this.employments == employments && this.documents == documents
    {
      this.lower, this.people, this.employments, this.documents := lower, people, employments, documents;
      this.merged := map[];
    }

    method CreateMergeTable()
      modifies this`merged
      ensures merged == MergeTable(people, people)
    {
      merged := map[];
      for i := 0 to |people|
        invariant merged == MergeTable(people, people[..i])
      {
        var p := people[i];
        assert people[..i + 1][..i] == people[..i];
        var first := First(people, p.rutNormalized);
        if IsDuplicate(people, p) && first.Some? {
          merged := merged[p.id := first.value.id];
        }
      }
      assert people[..|people|] == people;
    }

    /** The update of the canonical rows in some order, checked against the unique index row by row. */
    method UpdateCanonicalRows(order: seq<nat>) returns (ok: bool)
      requires IsOrder(order, |people|)
      modifies this`people
      ensures ok <==> GoesThrough(old(people), merged, order, lower)
      ensures ok ==> people == AllUpdated(old(people), merged)
    {
      hide UpdatedRow, Latest, SameKey, Midway;
      ghost var before := people;
      var snapshot := people;
      for k := 0 to |order|
        invariant people == Midway(before, merged, Visited(order[..k]))
        invariant forall l :: 0 <= l < k ==> !Clashes(before, merged, Visited(order[..l]), order[l], lower)
      {
        var i := order[k];
        WriteRow(before, merged, order, k);
        if Latest(snapshot, merged, snapshot[i].id).Some? {
          var row := UpdatedRow(snapshot, merged, snapshot[i]);
          if exists j :: 0 <= j < |people| && j != i && SameKey(row, people[j], lower) {
            assert Clashes(before, merged, Visited(order[..k]), i, lower);
            return false;
          }
          people := people[i := row];
        }
      }
      assert order[..|order|] == order;
      AllVisited(before, merged, order);
      return true;
    }

    method RepointReferences()
      modifies this`employments, this`documents
      ensures employments == Repoint(merged, old(employments)) && documents == Repoint(merged, old(documents))
    {
      employments := Repoint(merged, employments);
      documents := Repoint(merged, documents);
    }

    /** Deletes the duplicates and drops the client of every remaining row. */
    method DeleteDuplicates(ghost before: seq<Person>)
      requires people == AllUpdated(before, merged)
      modifies this`people
      ensures people == MergeRows(before, merged, before)
    {
      var kept: seq<Person> := [];
      for i := 0 to |people|
        invariant kept == MergeRows(before, merged, before[..i])
      {
        assert before[..i + 1][..i] == before[..i];
        var p := people[i];
        assert p.id == before[i].id;
        if p.id !in merged {
          kept := kept + [p.(clientId := None)];
        }
      }
      assert before[..|before|] == before;
      people := kept;
    }

    /** upgrade(): one transaction, undone when the index refuses a row. `order` is the database's choice. */
    method Upgrade(order: seq<nat>) returns (ok: bool)
      requires IsOrder(order, |people|)
      modifies this
      ensures ok <==> GoesThrough(old(people), MergeTable(old(people), old(people)), order, lower)
      ensures NoEmailClash(old(people), lower) ==> ok
      ensures ok ==>
                && people == MergePeople(old(people))
                && employments == Repoint(MergeTable(old(people), old(people)), old(employments))
                && documents == Repoint(MergeTable(old(people), old(people)), old(documents))
      ensures !ok ==> people == old(people) && employments == old(employments) && documents == old(documents)
    {
      hide NoEmailClash, GoesThrough, IsOrder, MergeTable, MergeRows;
      var snapshot := people;
      NoClashGoesThrough(people, order, lower);
      CreateMergeTable();
      ok := UpdateCanonicalRows(order);
      if !ok {
        people := snapshot;
        return;
      }
      RepointReferences();
      DeleteDuplicates(snapshot);
    }
  }

  // ---------------------------------------------------------------------
  // Survivors.
  // ---------------------------------------------------------------------

  ghost predicate IsSurvivor(people: seq<Person>, p: Person) {
    && p in people
    && forall q :: q in people && q.rutNormalized == p.rutNormalized && q != p ==>
         p.createdAt < q.createdAt || (p.createdAt == q.createdAt && p.id < q.id)
  }

  lemma {:induction false} FirstIsEarliest(people: seq<Person>, rut: string)
    requires DistinctIds(people)
    ensures First(people, rut).None? ==> forall q :: q in people ==> q.rutNormalized != rut
    ensures First(people, rut).Some? ==> IsSurvivor(people, First(people, rut).value) && First(people, rut).value.rutNormalized == rut
  {
    if people != [] {
      var rest, p := people[..|people| - 1], people[|people| - 1];
      FirstIsEarliest(rest, rut);
      assert forall q :: q in people <==> q in rest || q == p;
      assert forall q :: q in rest ==> q.id != p.id;
    }
  }

  /** row_number() > 1 marks every row of a group but the one first_value() names. */
  lemma DuplicatesAreTheOthers(people: seq<Person>, p: Person)
    requires DistinctIds(people) && p in people
    ensures First(people, p.rutNormalized).Some?
    ensures IsDuplicate(people, p) <==> First(people, p.rutNormalized).value != p
    ensures IsDuplicate(people, p) <==> !IsSurvivor(people, p)
  {
    FirstIsEarliest(people, p.rutNormalized);
    var first := First(people, p.rutNormalized).value;
    if first != p { assert Before(first, p); }
  }

  lemma SameIdSameRow(people: seq<Person>, p: Person, q: Person)
    requires DistinctIds(people) && p in people && q in people && p.id == q.id
    ensures p == q
  {
  }

  /** The merge table maps each duplicate, and nothing else, to the survivor of its group. */
  lemma {:induction false} MergeTableMaps(people: seq<Person>, rows: seq<Person>, p: Person)
    requires DistinctIds(people) && p in people && forall r :: r in rows ==> r in people
    ensures var merged := MergeTable(people, rows);
            && (p.id in merged <==> p in rows && IsDuplicate(people, p))
            && (p.id in merged ==> merged[p.id] == First(people, p.rutNormalized).GetOr(p).id)
  {
    if rows != [] {
      var last := rows[|rows| - 1];
      assert last in rows;
      MergeTableMaps(people, rows[..|rows| - 1], p);
      DuplicatesAreTheOthers(people, last);
      if last.id == p.id { SameIdSameRow(people, last, p); }
    }
  }

  lemma {:induction false} MergeTableKeys(people: seq<Person>, rows: seq<Person>, id: Id)
    requires forall r :: r in rows ==> r in people
    ensures id in MergeTable(people, rows) ==> exists p :: p in people && p.id == id
  {
    if rows != [] {
      assert rows[|rows| - 1] in rows;
      MergeTableKeys(people, rows[..|rows| - 1], id);
    }
  }

  /** Each row of the result continues one survivor, under its own id and RUT. */
  lemma {:induction false} MergedRowsAreSurvivors(people: seq<Person>, rows: seq<Person>, q: Person)
    requires DistinctIds(people) && forall r :: r in rows ==> r in people
    ensures var merged := MergeTable(people, people);
            q in MergeRows(people, merged, rows) <==>
            exists p :: p in rows && IsSurvivor(people, p) && q == UpdatedRow(people, merged, p).(clientId := None)
  {
    var merged := MergeTable(people, people);
    if rows != [] {
      var p, rest := rows[|rows| - 1], rows[..|rows| - 1];
      assert p in rows;
      MergedRowsAreSurvivors(people, rest, q);
      MergeTableMaps(people, people, p);
      DuplicatesAreTheOthers(people, p);
      assert forall r :: r in rows <==> r in rest || r == p;
    }
  }

  ghost predicate DistinctRuts(people: seq<Person>) {
    forall i, j :: 0 <= i < j < |people| ==> people[i].rutNormalized != people[j].rutNormalized
  }

  lemma {:induction false} MergedRutsApart(people: seq<Person>, rows: seq<Person>)
    requires DistinctIds(people) && DistinctIds(rows) && forall r :: r in rows ==> r in people
    ensures DistinctRuts(MergeRows(people, MergeTable(people, people), rows))
  {
    var merged := MergeTable(people, people);
    if rows != [] {
      var p, rest := rows[|rows| - 1], rows[..|rows| - 1];
      assert p in rows;
      MergedRutsApart(people, rest);
      var m := MergeRows(people, merged, rest);
      MergeTableMaps(people, people, p);
      DuplicatesAreTheOthers(people, p);
      if p.id !in merged {
        forall i | 0 <= i < |m| ensures m[i].rutNormalized != p.rutNormalized {
          MergedRowsAreSurvivors(people, rest, m[i]);
          var q :| q in rest && IsSurvivor(people, q) && m[i] == UpdatedRow(people, merged, q).(clientId := None);
          assert q.id != p.id;
          assert q in people && p in people;
        }
      }
    }
  }

  function Ruts(people: seq<Person>): set<string> {
    set p | p in people :: p.rutNormalized
  }

  lemma {:induction false} DistinctRutsCount(people: seq<Person>)
    requires DistinctRuts(people)
    ensures |Ruts(people)| == |people|
  {
    if people != [] {
      var rest, p := people[..|people| - 1], people[|people| - 1];
      DistinctRutsCount(rest);
      assert Ruts(people) == Ruts(rest) + {p.rutNormalized};
      assert p.rutNormalized !in Ruts(rest);
    } else {
      assert Ruts(people) == {};
    }
  }

  /** Afterwards no two people share a RUT, the RUTs are those of before, and there is one person
      for each: the new unique constraint holds. */
  lemma OnePersonPerRut(people: seq<Person>)
    requires DistinctIds(people)
    ensures var m := MergePeople(people);
            && DistinctRuts(m)
            && Ruts(m) == Ruts(people)
            && |m| == |Ruts(people)|
  {
    var merged, m := MergeTable(people, people), MergePeople(people);
    MergedRutsApart(people, people);
    DistinctRutsCount(m);
    forall rut ensures rut in Ruts(m) <==> rut in Ruts(people) {
      FirstIsEarliest(people, rut);
      if rut in Ruts(people) {
        var p := First(people, rut).value;
        MergedRowsAreSurvivors(people, people, UpdatedRow(people, merged, p).(clientId := None));
      }
      if rut in Ruts(m) {
        var q :| q in m && q.rutNormalized == rut;
        MergedRowsAreSurvivors(people, people, q);
      }
    }
  }

  /** Referential integrity: each employment or document keeps its other columns and ends at an
      existing person with the RUT it pointed to, so the deletes meet no reference. */
  lemma ReferencesFollow(people: seq<Person>, rows: seq<Reference>, i: nat, p: Person)
    requires DistinctIds(people) && i < |rows| && p in people && rows[i].personId == p.id
    ensures var r := Repoint(MergeTable(people, people), rows)[i];
            && r.id == rows[i].id && r.rest == rows[i].rest
            && r.personId !in MergeTable(people, people)
            && exists q :: q in MergePeople(people) && q.id == r.personId && q.rutNormalized == p.rutNormalized
  {
    var merged := MergeTable(people, people);
    FirstIsEarliest(people, p.rutNormalized);
    MergeTableMaps(people, people, p);
    DuplicatesAreTheOthers(people, p);
    var s := First(people, p.rutNormalized).value;
    MergeTableMaps(people, people, s);
    DuplicatesAreTheOthers(people, s);
    var q := UpdatedRow(people, merged, s).(clientId := None);
    MergedRowsAreSurvivors(people, people, q);
    assert q in MergePeople(people) && q.id == s.id;
  }

  // ---------------------------------------------------------------------
  // The merged values.
  // ---------------------------------------------------------------------

  /** l is the most recently updated of the other rows of p's group, the lowest id breaking ties. */
  ghost predicate IsLatestDuplicate(people: seq<Person>, p: Person, l: Person) {
    && l in people && l.rutNormalized == p.rutNormalized && l != p
    && forall r :: r in people && r.rutNormalized == p.rutNormalized && r != p && r != l ==>
         l.updatedAt > r.updatedAt || (l.updatedAt == r.updatedAt && l.id < r.id)
  }

  lemma {:induction false} LatestIsFreshest(people: seq<Person>, merged: map<Id, Id>, c: Id)
    requires DistinctIds(people)
    ensures match Latest(people, merged, c)
            case None => forall r :: r in people ==> !(r.id in merged && merged[r.id] == c)
            case Some(l) => l in people && l.id in merged && merged[l.id] == c
                            && forall r :: r in people && r.id in merged && merged[r.id] == c && r != l ==>
                                 l.updatedAt > r.updatedAt || (l.updatedAt == r.updatedAt && l.id < r.id)
  {
    if people != [] {
      var rest, p := people[..|people| - 1], people[|people| - 1];
      LatestIsFreshest(rest, merged, c);
      assert forall r :: r in people <==> r in rest || r == p;
      assert forall r :: r in rest ==> r.id != p.id;
    }
  }

  /** The duplicates merged into a survivor are the other rows of its group. */
  lemma MergedIntoSurvivor(people: seq<Person>, p: Person, r: Person)
    requires DistinctIds(people) && IsSurvivor(people, p) && r in people
    ensures var merged := MergeTable(people, people);
            r.id in merged && merged[r.id] == p.id <==> r != p && r.rutNormalized == p.rutNormalized
  {
    MergeTableMaps(people, people, r);
    DuplicatesAreTheOthers(people, r);
    FirstIsEarliest(people, r.rutNormalized);
    if First(people, r.rutNormalized).value.id == p.id {
      SameIdSameRow(people, First(people, r.rutNormalized).value, p);
    }
  }

  /** Each profile field of a survivor becomes its latest duplicate's trimmed value when that is
      not blank and otherwise stays; a survivor without duplicates is unchanged; no filled field
      is emptied; updated_at never decreases. */
  lemma SurvivorValues(people: seq<Person>, p: Person, l: Person, c: Column)
    requires DistinctIds(people) && IsSurvivor(people, p)
    ensures var q := UpdatedRow(people, MergeTable(people, people), p);
            && q.id == p.id && q.rutNormalized == p.rutNormalized && q.createdAt == p.createdAt
            && (IsLatestDuplicate(people, p, l) ==>
                  && Get(q.profile, c) == Coalesce(Get(l.profile, c), Get(p.profile, c))
                  && q.updatedAt >= p.updatedAt && q.updatedAt >= l.updatedAt)
            && ((forall r :: r in people && r.rutNormalized == p.rutNormalized ==> r == p) ==> q == p)
            && q.updatedAt >= p.updatedAt
            && (Get(p.profile, c).Some? && Get(p.profile, c).value != "" ==>
                  Get(q.profile, c).Some? && Get(q.profile, c).value != "")
  {
    var merged := MergeTable(people, people);
    LatestIsFreshest(people, merged, p.id);
    forall r | r in people ensures r.id in merged && merged[r.id] == p.id <==> r != p && r.rutNormalized == p.rutNormalized {
      MergedIntoSurvivor(people, p, r);
    }
  }

  function Chosen(latest: Option<string>, own: Option<string>): Option<string> {
    if latest.Some? && exists i :: 0 <= i < |latest.value| && latest.value[i] != ' ' then Some(Trim(latest.value)) else own
  }

  /** The merged row of a group, column by column: the row created first, with the values of the most recently
      updated of the others (the lowest id among equals) wherever those are not blank. */
  lemma FreshestValuesWin(people: seq<Person>, p: Person, l: Person)
    requires DistinctIds(people) && p in people && l in people && l != p && l.rutNormalized == p.rutNormalized
    requires forall q :: q in people && q.rutNormalized == p.rutNormalized && q != p ==>
               p.createdAt < q.createdAt || (p.createdAt == q.createdAt && p.id < q.id)
    requires forall r :: r in people && r.rutNormalized == p.rutNormalized && r != p && r != l ==>
               r.updatedAt < l.updatedAt || (r.updatedAt == l.updatedAt && r.id > l.id)
    ensures exists q :: q in MergePeople(people) && q.id == p.id && q.rutNormalized == p.rutNormalized && q.clientId == None
              && q.createdAt == p.createdAt && q.updatedAt >= p.updatedAt && q.updatedAt >= l.updatedAt
              && (q.updatedAt == p.updatedAt || q.updatedAt == l.updatedAt)
              && q.profile.firstName == Chosen(l.profile.firstName, p.profile.firstName)
              && q.profile.lastName == Chosen(l.profile.lastName, p.profile.lastName)
              && q.profile.rut == Chosen(l.profile.rut, p.profile.rut)
              && q.profile.email == Chosen(l.profile.email, p.profile.email)
              && q.profile.phone == Chosen(l.profile.phone, p.profile.phone)
              && q.profile.address == Chosen(l.profile.address, p.profile.address)
              && q.profile.commune == Chosen(l.profile.commune, p.profile.commune)
  {
    var merged := MergeTable(people, people);
    forall s { BlankMeansSpaces(s); }
    assert IsSurvivor(people, p) && IsLatestDuplicate(people, p, l);
    LatestIsFreshest(people, merged, p.id);
    MergedIntoSurvivor(people, p, l);
    forall r | r in people ensures r.id in merged && merged[r.id] == p.id <==> r != p && r.rutNormalized == p.rutNormalized {
      MergedIntoSurvivor(people, p, r);
    }
    assert Latest(people, merged, p.id) == Some(l);
    var q := UpdatedRow(people, merged, p).(clientId := None);
    MergedRowsAreSurvivors(people, people, q);
    hide Trim;
    assert q in MergePeople(people);
  }

  /** trim() takes off the spaces at both ends, and only them. */
  lemma {:induction false} TrimIsCore(s: string) returns (a: string, b: string)
    ensures s == a + Trim(s) + b
    ensures (forall i :: 0 <= i < |a| ==> a[i] == ' ') && (forall i :: 0 <= i < |b| ==> b[i] == ' ')
    ensures Trim(s) != "" ==> Trim(s)[0] != ' ' && Trim(s)[|Trim(s)| - 1] != ' '
    decreases |s|
  {
    if s != "" && s[0] == ' ' {
      a, b := TrimIsCore(s[1..]);
      assert Trim(s) == Trim(s[1..]);
      hide Trim;
      assert s == [' '] + (a + Trim(s) + b);
      assert [' '] + (a + Trim(s) + b) == [' '] + a + Trim(s) + b;
      a := [' '] + a;
    } else if s != "" && s[|s| - 1] == ' ' {
      var rest := s[..|s| - 1];
      a, b := TrimIsCore(rest);
      assert Trim(s) == Trim(rest);
      hide Trim;
      assert s == (a + Trim(s) + b) + [' '];
      assert (a + Trim(s) + b) + [' '] == a + Trim(s) + (b + [' ']);
      b := b + [' '];
    } else {
      a, b := "", "";
    }
  }

  lemma BlankMeansSpaces(s: string)
    ensures Trim(s) != "" <==> exists i :: 0 <= i < |s| && s[i] != ' '
  {
    var a, b := TrimIsCore(s);
    var core := Trim(s);
    hide Trim;
    if core != "" {
      assert s[|a|] == core[0];
    } else {
      assert forall i :: 0 <= i < |s| ==> s[i] == if i < |a| then a[i] else b[i - |a|];
    }
  }

  // ---------------------------------------------------------------------
  // Idempotence.
  // ---------------------------------------------------------------------

  lemma {:induction false} NoDuplicatesNoMerge(people: seq<Person>, rows: seq<Person>)
    requires forall p :: p in people ==> !IsDuplicate(people, p)
    requires forall r :: r in rows ==> r in people && r.clientId == None
    ensures MergeTable(people, rows) == map[]
    ensures MergeRows(people, map[], rows) == rows
  {
    if rows != [] {
      assert rows[|rows| - 1] in rows;
      NoDuplicatesNoMerge(people, rows[..|rows| - 1]);
      NoLatest(people, rows[|rows| - 1].id);
    }
  }

  lemma {:induction false} NoLatest(people: seq<Person>, id: Id)
    ensures Latest(people, map[], id) == None
  {
    if people != [] { NoLatest(people[..|people| - 1], id); }
  }

  lemma {:induction false} RepointNothing(rows: seq<Reference>)
    ensures Repoint(map[], rows) == rows
  {
  }

  /** A second run of the merge changes nothing. */
  lemma MergeIsIdempotent(people: seq<Person>, rows: seq<Reference>)
    requires DistinctIds(people)
    ensures var m := MergePeople(people);
            MergePeople(m) == m && Repoint(MergeTable(m, m), rows) == rows
  {
    var m := MergePeople(people);
    OnePersonPerRut(people);
    forall p | p in m ensures p.clientId == None {
      MergedRowsAreSurvivors(people, people, p);
    }
    NoDuplicatesNoMerge(m, m);
    RepointNothing(rows);
  }

  // ---------------------------------------------------------------------
  // The email index.
  // ---------------------------------------------------------------------

  lemma NoClashGoesThrough(people: seq<Person>, order: seq<nat>, lower: string -> string)
    requires IsOrder(order, |people|)
    ensures NoEmailClash(people, lower) ==> GoesThrough(people, MergeTable(people, people), order, lower)
  {
  }

  /** 0..n-1 without the given indices. */
  function Others(n: nat, without: set<nat>): (r: seq<nat>)
    ensures forall i: nat :: i in r <==> i < n && i !in without
    ensures forall k, l :: 0 <= k < l < |r| ==> r[k] != r[l]
    decreases n
  {
    if n == 0 then [] else Others(n - 1, without) + if n - 1 in without then [] else [n - 1]
  }

  function StartingWith(start: seq<nat>, n: nat): (order: seq<nat>)
    requires forall k :: 0 <= k < |start| ==> start[k] < n
    requires forall k, l :: 0 <= k < l < |start| ==> start[k] != start[l]
    ensures start <= order && IsOrder(order, n)
  {
    var rest := Others(n, Visited(start));
    var order := start + rest;
    assert forall k :: 0 <= k < |rest| ==> rest[k] in rest;
    assert forall k :: 0 <= k < |start| ==> start[k] in start;
    order
  }

  /** Whether a row's new email is taken by another row's old one, or by its new one, some order meets it. */
  lemma SomeOrderClashes(people: seq<Person>, i: nat, j: nat, lower: string -> string) returns (order: seq<nat>)
    requires i < |people| && j < |people| && i != j
    requires var merged := MergeTable(people, people);
             var row := UpdatedRow(people, merged, people[i]);
             && Latest(people, merged, people[i].id).Some?
             && (SameKey(row, people[j], lower) || SameKey(row, UpdatedRow(people, merged, people[j]), lower))
    ensures IsOrder(order, |people|) && !GoesThrough(people, MergeTable(people, people), order, lower)
  {
    var merged := MergeTable(people, people);
    var row := UpdatedRow(people, merged, people[i]);
    if SameKey(row, people[j], lower) {
      order := StartingWith([i], |people|);
      assert order[0] == i && Visited(order[..0]) == {};
      assert SameKey(row, Midway(people, merged, {})[j], lower);
      assert Clashes(people, merged, {}, i, lower);
    } else {
      order := StartingWith([j, i], |people|);
      assert order[1] == i && order[..1] == [j] && Visited(order[..1]) == {j};
      assert SameKey(row, Midway(people, merged, {j})[j], lower);
      assert Clashes(people, merged, {j}, i, lower);
    }
  }

  /** The condition is exact: it holds if and only if the update goes through in whatever order
      the database visits the rows. */
  lemma NoEmailClashIsExact(people: seq<Person>, lower: string -> string)
    ensures NoEmailClash(people, lower) <==>
            forall order :: IsOrder(order, |people|) ==> GoesThrough(people, MergeTable(people, people), order, lower)
  {
    var merged := MergeTable(people, people);
    if NoEmailClash(people, lower) {
      forall order | IsOrder(order, |people|) ensures GoesThrough(people, merged, order, lower) {
        NoClashGoesThrough(people, order, lower);
      }
    } else {
      var i, j :| 0 <= i < |people| && 0 <= j < |people| && i != j && Latest(people, merged, people[i].id).Some?
                  && (SameKey(UpdatedRow(people, merged, people[i]), people[j], lower)
                      || SameKey(UpdatedRow(people, merged, people[i]), UpdatedRow(people, merged, people[j]), lower));
      var order := SomeOrderClashes(people, i, j, lower);
    }
  }

  const NO_PROFILE := Profile(Some("A"), Some("B"), Some("1-9"), None, None, None, None)

  function WithEmail(id: Id, client: Id, rut: string, email: Option<string>): Person {
    Person(id, Some(client), rut, NO_PROFILE.(email := email), id, id)
  }

  /** No two rows break the unique (client, RUT) and (client, lower(email)) constraints. */
  predicate Constrained(people: seq<Person>, lower: string -> string) {
    forall i, j :: 0 <= i < j < |people| ==>
      && !SameKey(people[i], people[j], lower)
      && !(people[i].clientId == people[j].clientId && people[i].rutNormalized == people[j].rutNormalized)
  }

  /** A group of two: the survivor takes over the duplicate's email. */
  lemma Adopts(people: seq<Person>, survivor: Person, duplicate: Person, c: Id, email: string)
    requires DistinctIds(people) && survivor in people && duplicate in people && survivor.id < duplicate.id
    requires survivor.createdAt == survivor.id && duplicate.createdAt == duplicate.id
    requires survivor.rutNormalized == duplicate.rutNormalized && survivor.clientId == Some(c)
    requires forall q :: q in people && q.rutNormalized == survivor.rutNormalized ==> q == survivor || q == duplicate
    requires duplicate.profile.email == Some(email) && email != "" && Trim(email) == email
    ensures var merged := MergeTable(people, people);
            && Latest(people, merged, survivor.id).Some?
            && UpdatedRow(people, merged, survivor).profile.email == Some(email)
            && UpdatedRow(people, merged, survivor).clientId == Some(c)
  {
    assert IsSurvivor(people, survivor) && IsLatestDuplicate(people, survivor, duplicate);
    SurvivorValues(people, survivor, duplicate, Email);
    LatestIsFreshest(people, MergeTable(people, people), survivor.id);
    MergedIntoSurvivor(people, survivor, duplicate);
  }

  /** Three people satisfying every constraint on which the migration always fails: the survivor of RUT "1"
      takes over an email that RUT "2" already has at the survivor's client. */
  lemma AnAdoptedEmailCanClash(lower: string -> string)
    ensures var people := [WithEmail(1, 10, "1", None), WithEmail(2, 20, "1", Some("a@b.cl")), WithEmail(3, 10, "2", Some("a@b.cl"))];
            && DistinctIds(people) && Constrained(people, lower)
            && forall order :: IsOrder(order, 3) ==> !GoesThrough(people, MergeTable(people, people), order, lower)
  {
    var survivor, duplicate, other := WithEmail(1, 10, "1", None), WithEmail(2, 20, "1", Some("a@b.cl")), WithEmail(3, 10, "2", Some("a@b.cl"));
    hide UpdatedRow, MergeTable, Latest, GoesThrough, IsOrder;
    var people := [survivor, duplicate, other];
    var merged := MergeTable(people, people);
    Adopts(people, survivor, duplicate, 10, "a@b.cl");
    SurvivorValues(people, other, other, Email);
    assert SameKey(UpdatedRow(people, merged, survivor), other, lower);
    hide SameKey, IsSurvivor;
    forall order | IsOrder(order, 3) ensures !GoesThrough(people, merged, order, lower) {
      AlwaysClashes(people, merged, order, 0, 2, lower);
    }
  }

  /** Row i's new email is that of a row that keeps it. */
  lemma AlwaysClashes(people: seq<Person>, merged: map<Id, Id>, order: seq<nat>, i: nat, j: nat, lower: string -> string)
    requires IsOrder(order, |people|) && i < |people| && j < |people| && i != j
    requires Latest(people, merged, people[i].id).Some?
    requires SameKey(UpdatedRow(people, merged, people[i]), people[j], lower) && UpdatedRow(people, merged, people[j]) == people[j]
    ensures !GoesThrough(people, merged, order, lower)
  {
    hide UpdatedRow, Latest, SameKey;
    assert i in order;
    var k :| 0 <= k < |order| && order[k] == i;
    assert SameKey(UpdatedRow(people, merged, people[i]), Midway(people, merged, Visited(order[..k]))[j], lower);
    assert Clashes(people, merged, Visited(order[..k]), i, lower);
  }

  /** The same rows can pass or fail with the order: RUT "1" adopts the email that RUT "2" is giving up. */
  lemma TheOrderCanDecide(lower: string -> string)
    requires lower("a") != lower("b") && lower("b") != lower("c") && lower("a") != lower("c")
    ensures var people := [WithEmail(1, 10, "1", Some("a")), WithEmail(2, 10, "2", Some("b")),
                           WithEmail(3, 20, "1", Some("b")), WithEmail(4, 20, "2", Some("c"))];
            var merged := MergeTable(people, people);
            && DistinctIds(people) && Constrained(people, lower)
            && IsOrder([1, 0, 2, 3], 4) && GoesThrough(people, merged, [1, 0, 2, 3], lower)
            && IsOrder([0, 1, 2, 3], 4) && !GoesThrough(people, merged, [0, 1, 2, 3], lower)
  {
    hide UpdatedRow, MergeTable, Latest, GoesThrough, IsOrder;
    var s1, s2, d1, d2 := WithEmail(1, 10, "1", Some("a")), WithEmail(2, 10, "2", Some("b")), WithEmail(3, 20, "1", Some("b")), WithEmail(4, 20, "2", Some("c"));
    var people := [s1, s2, d1, d2];
    var merged := MergeTable(people, people);
    Adopts(people, s1, d1, 10, "b");
    Adopts(people, s2, d2, 10, "c");
    NeverASurvivor(people, d1, s1);
    NeverASurvivor(people, d2, s2);
    TwoOrders(people, merged, lower);
  }

  /** Row 0 moves to the key row 1 leaves; the others are not written. */
  lemma TwoOrders(people: seq<Person>, merged: map<Id, Id>, lower: string -> string)
    requires |people| == 4
    requires Latest(people, merged, people[0].id).Some?
    requires Latest(people, merged, people[2].id).None? && Latest(people, merged, people[3].id).None?
    requires var u0, u1 := UpdatedRow(people, merged, people[0]), UpdatedRow(people, merged, people[1]);
             && SameKey(u0, people[1], lower)
             && !SameKey(u1, people[0], lower) && !SameKey(u0, u1, lower)
             && forall j :: 2 <= j < 4 ==> !SameKey(u0, people[j], lower) && !SameKey(u1, people[j], lower)
    ensures IsOrder([1, 0, 2, 3], 4) && GoesThrough(people, merged, [1, 0, 2, 3], lower)
    ensures IsOrder([0, 1, 2, 3], 4) && !GoesThrough(people, merged, [0, 1, 2, 3], lower)
  {
    hide UpdatedRow, Latest, SameKey;
    TwoOrdersAreOrders();
    hide IsOrder, GoesThrough, Clashes, Midway;
    EarlyOrderClashes(people, merged, lower);
    var late := [1, 0, 2, 3];
    assert late[..0] == [] && late[..1] == [1];
    NoClash(people, merged, Visited(late[..0]), 1, lower);
    NoClash(people, merged, Visited(late[..1]), 0, lower);
    LateOrderGoesThrough(people, merged, lower);
  }

  lemma NoClash(people: seq<Person>, merged: map<Id, Id>, written: set<nat>, i: nat, lower: string -> string)
    requires i < |people|
    requires var row := UpdatedRow(people, merged, people[i]);
             forall j :: 0 <= j < |people| && j != i ==>
               !SameKey(row, if j in written then UpdatedRow(people, merged, people[j]) else people[j], lower)
    ensures !Clashes(people, merged, written, i, lower)
  {
    hide UpdatedRow, Latest, SameKey;
  }

  lemma LateOrderGoesThrough(people: seq<Person>, merged: map<Id, Id>, lower: string -> string)
    requires |people| == 4 && IsOrder([1, 0, 2, 3], 4)
    requires Latest(people, merged, people[2].id).None? && Latest(people, merged, people[3].id).None?
    requires var late := [1, 0, 2, 3];
             !Clashes(people, merged, Visited(late[..0]), 1, lower) && !Clashes(people, merged, Visited(late[..1]), 0, lower)
    ensures GoesThrough(people, merged, [1, 0, 2, 3], lower)
  {
    hide UpdatedRow, Latest, SameKey, IsOrder;
    var late := [1, 0, 2, 3];
    forall k | 0 <= k < 4 ensures !Clashes(people, merged, Visited(late[..k]), late[k], lower) {
      assert k == 0 || k == 1 || k == 2 || k == 3;
    }
  }

  lemma EarlyOrderClashes(people: seq<Person>, merged: map<Id, Id>, lower: string -> string)
    requires |people| == 4 && Latest(people, merged, people[0].id).Some?
    requires SameKey(UpdatedRow(people, merged, people[0]), people[1], lower) && IsOrder([0, 1, 2, 3], 4)
    ensures !GoesThrough(people, merged, [0, 1, 2, 3], lower)
  {
    hide UpdatedRow, Latest, SameKey, IsOrder;
    var early := [0, 1, 2, 3];
    assert early[..0] == [];
    assert SameKey(UpdatedRow(people, merged, people[0]), Midway(people, merged, Visited(early[..0]))[1], lower);
    assert Clashes(people, merged, Visited(early[..0]), early[0], lower);
  }

  lemma TwoOrdersAreOrders()
    ensures IsOrder([1, 0, 2, 3], 4) && IsOrder([0, 1, 2, 3], 4)
  {
    var late, early := [1, 0, 2, 3], [0, 1, 2, 3];
    assert late[1] == 0 && late[0] == 1 && late[2] == 2 && late[3] == 3;
    assert early[0] == 0 && early[1] == 1 && early[2] == 2 && early[3] == 3;
  }

  /** Nothing is merged into a row that is not the first of its group. */
  lemma NeverASurvivor(people: seq<Person>, d: Person, survivor: Person)
    requires DistinctIds(people) && d in people && survivor in people
    requires survivor.rutNormalized == d.rutNormalized && Before(survivor, d)
    ensures Latest(people, MergeTable(people, people), d.id) == None
  {
    var merged := MergeTable(people, people);
    LatestIsFreshest(people, merged, d.id);
    forall r | r in people ensures !(r.id in merged && merged[r.id] == d.id) {
      MergeTableMaps(people, people, r);
      FirstIsEarliest(people, r.rutNormalized);
      if r.id in merged && merged[r.id] == d.id {
        SameIdSameRow(people, First(people, r.rutNormalized).value, d);
      }
    }
  }
}
