/**
 Moving queued waste records from per-point forms to their event's single form,
 inside one transaction of the browser's store. Its two reads answer through
 callbacks, in either order; the second to arrive rewrites the records.
 */
module OfflineQueue {
  import opened Common

  datatype Point = Point(id: string, code: string, name: string)
  datatype EventForm = EventForm(eventId: string, points: seq<Point>)

  /** A form cached under its token; forms of the old version carry the code and name of one point. */
  datatype CachedForm = CachedForm(token: string, eventId: string, code: Option<string>, name: Option<string>)

  /** `rest` stands for the fields the migration copies without reading. */
  datatype Record = Record(id: string, token: string, collectionPointId: Option<string>, weightKg: real, rest: string)

  type Forms = map<string, CachedForm>
  type Records = map<string, Record>

  /** Each row sits under its own key path. */
  ghost predicate Keyed(forms: Forms, records: Records) {
    && (forall t :: t in forms ==> forms[t].token == t)
    && (forall id :: id in records ==> records[id].id == id)
  }

  predicate Matches(p: Point, legacy: CachedForm) {
    Some(p.code) == legacy.code || Some(p.name) == legacy.name
  }

  function FindPoint(points: seq<Point>, legacy: CachedForm): (p: Option<Point>)
    ensures p.None? ==> forall q :: q in points ==> !Matches(q, legacy)
    ensures p.Some? ==> exists i :: 0 <= i < |points| && points[i] == p.value && Matches(points[i], legacy)
                                    && forall j :: 0 <= j < i ==> !Matches(points[j], legacy)
  {
    if points == [] then None
    else if Matches(points[0], legacy) then Some(points[0])
    else
      var p := FindPoint(points[1..], legacy);
      assert forall q :: q in points ==> q == points[0] || q in points[1..];
      assert p.Some? ==> exists i :: 1 <= i < |points| && points[i] == p.value && Matches(points[i], legacy)
                                     && forall j :: 0 <= j < i ==> !Matches(points[j], legacy) by {
        if p.Some? {
          var i :| 0 <= i < |points[1..]| && points[1..][i] == p.value && Matches(points[1..][i], legacy)
                   && forall j :: 0 <= j < i ==> !Matches(points[1..][j], legacy);
          assert points[i + 1] == p.value;
          forall j | 0 <= j < i + 1 ensures !Matches(points[j], legacy) {
            if j > 0 { assert points[j] == points[1..][j - 1]; }
          }
        }
      }
      p
  }

  predicate IsLegacy(f: CachedForm, token: string, form: EventForm) {
    f.eventId == form.eventId && f.token != token
  }

  /** Already on the current form, or already given a point. */
  predicate Settled(r: Record, token: string) {
    r.token == token || (r.collectionPointId.Some? && r.collectionPointId.value != "")
  }

  function MigrateRecord(r: Record, forms: Forms, token: string, form: EventForm): Record {
    if Settled(r, token) || r.token !in forms || !IsLegacy(forms[r.token], token, form) then r
    else
      match FindPoint(form.points, forms[r.token])
      case None => r
      case Some(p) => r.(token := token, collectionPointId := Some(p.id))
  }

  function MigrateAll(records: Records, forms: Forms, token: string, form: EventForm): Records {
    map id | id in records :: MigrateRecord(records[id], forms, token, form)
  }

  /** getAll(): every row of a store, once or in whatever order. */
  ghost predicate ListsForms(rows: seq<CachedForm>, forms: Forms) {
    && (forall f :: f in rows ==> f.token in forms && forms[f.token] == f)
    && (forall t :: t in forms ==> forms[t] in rows)
  }

  ghost predicate ListsRecords(rows: seq<Record>, records: Records) {
    && (forall r :: r in rows ==> r.id in records && records[r.id] == r)
    && (forall id :: id in records ==> records[id] in rows)
  }

  /** The records in `done` are migrated, the others as they were. */
  ghost predicate PartlyMigrated(records: Records, original: Records, done: set<string>, forms: Forms, token: string, form: EventForm) {
    && records.Keys == original.Keys
    && forall id :: id in original ==>
         records[id] == if id in done then MigrateRecord(original[id], forms, token, form) else original[id]
  }

  lemma NothingMigrated(original: Records, forms: Forms, token: string, form: EventForm)
    ensures PartlyMigrated(original, original, {}, forms, token, form)
  {
  }

  lemma PutBack(records: Records, original: Records, done: set<string>, record: Record, moved: Option<Record>,
                forms: Forms, token: string, form: EventForm)
    requires PartlyMigrated(records, original, done, forms, token, form)
    requires record.id in original && original[record.id] == record
    requires moved.GetOr(record) == MigrateRecord(record, forms, token, form)
    ensures PartlyMigrated(if moved.Some? then records[record.id := moved.value] else records, original, done + {record.id}, forms, token, form)
  {
    hide MigrateRecord;
  }

  lemma EverythingMigrated(records: Records, original: Records, done: set<string>, forms: Forms, token: string, form: EventForm)
    requires PartlyMigrated(records, original, done, forms, token, form) && original.Keys <= done
    ensures records == MigrateAll(original, forms, token, form)
  {
    hide MigrateRecord;
  }

  /** put() keeps every row under its own key. */
  lemma PutKeepsKeys(forms: Forms, records: Records, f: CachedForm, r: Record)
    requires Keyed(forms, records)
    ensures Keyed(map[], map[]) && Keyed(forms[f.token := f], records) && Keyed(forms, records[r.id := r])
  {
  }

  /** Every store has listings for getAll() to answer with. */
  lemma FormsCanBeListed(forms: Forms, tokens: set<string>) returns (rows: seq<CachedForm>)
    requires Keyed(forms, map[]) && tokens <= forms.Keys
    ensures forall f :: f in rows <==> f.token in tokens && forms[f.token] == f
    ensures tokens == forms.Keys ==> ListsForms(rows, forms)
    decreases |tokens|
  {
    rows := [];
    if tokens != {} {
      var t :| t in tokens;
      var rest := FormsCanBeListed(forms, tokens - {t});
      rows := [forms[t]] + rest;
    }
  }

  lemma RecordsCanBeListed(records: Records, ids: set<string>) returns (rows: seq<Record>)
    requires Keyed(map[], records) && ids <= records.Keys
    ensures forall r :: r in rows <==> r.id in ids && records[r.id] == r
    ensures ids == records.Keys ==> ListsRecords(rows, records)
    decreases |ids|
  {
    rows := [];
    if ids != {} {
      var id :| id in ids;
      var rest := RecordsCanBeListed(records, ids - {id});
      rows := [records[id]] + rest;
    }
  }

  class MigrationTransaction {
    const token: string
    const form: EventForm
    ghost const forms: Forms
    ghost const original: Records
    var records: Records
    var formsReady: bool
    var recordsReady: bool
    var cachedForms: seq<CachedForm>
    var queued: seq<Record>

    ghost predicate Valid()
      reads this
    {
      && Keyed(forms, original)
      && (formsReady ==> ListsForms(cachedForms, forms))
      && (recordsReady ==> ListsRecords(queued, original))
      && records == if formsReady && recordsReady then MigrateAll(original, forms, token, form) else original
    }

    constructor (token: string, form: EventForm, ghost forms: Forms, records: Records)
      requires Keyed(forms, records)
      ensures Valid() && this.token == token && this.form == form && this.forms == forms
      ensures this.original == records && this.records == records && !formsReady && !recordsReady
    {
      this.token, this.form, this.forms, this.original, this.records := token, form, forms, records, records;
      formsReady, recordsReady, cachedForms, queued := false, false, [], [];
    }

    method LegacyByToken() returns (legacy: Forms)
      requires ListsForms(cachedForms, forms) && Keyed(forms, original)
      ensures legacy == map t | t in forms && IsLegacy(forms[t], token, form) :: forms[t]
    {
      legacy := map[];
      for i := 0 to |cachedForms|
        invariant forall t :: t in legacy ==> t in forms && legacy[t] == forms[t] && IsLegacy(forms[t], token, form)
        invariant forall k :: 0 <= k < i && IsLegacy(cachedForms[k], token, form) ==> cachedForms[k].token in legacy
      {
        var item := cachedForms[i];
        assert item in cachedForms;
        if item.eventId == form.eventId && item.token != token {
          legacy := legacy[item.token := item];
        }
      }
      forall t | t in forms && IsLegacy(forms[t], token, form) ensures t in legacy {
        var k :| 0 <= k < |cachedForms| && cachedForms[k] == forms[t];
      }
    }

    method Migrate()
      requires Keyed(forms, original) && records == original
      requires formsReady ==> ListsForms(cachedForms, forms)
      requires recordsReady ==> ListsRecords(queued, original)
      modifies this`records
      ensures records == if formsReady && recordsReady then MigrateAll(original, forms, token, form) else original
    {
      if !formsReady || !recordsReady {
        return;
      }
      var legacyByToken := LegacyByToken();
      ghost var done: set<string> := {};
      hide MigrateAll, MigrateRecord, IsLegacy, PartlyMigrated;
      NothingMigrated(original, forms, token, form);
      for i := 0 to |queued|
        invariant PartlyMigrated(records, original, done, forms, token, form)
        invariant forall k :: 0 <= k < i ==> queued[k].id in done
      {
        var record := queued[i];
        assert record in queued;
        var moved := MigrateOne(record, legacyByToken);
        PutBack(records, original, done, record, moved, forms, token, form);
        if moved.Some? {
          records := records[record.id := moved.value];
        }
        done := done + {record.id};
      }
      forall id | id in original ensures id in done {
        assert original[id] in queued;
      }
      EverythingMigrated(records, original, done, forms, token, form);
    }

    /** The body of the loop: the record to put back, if any. */
    method MigrateOne(record: Record, legacyByToken: Forms) returns (moved: Option<Record>)
      requires legacyByToken == map t | t in forms && IsLegacy(forms[t], token, form) :: forms[t]
      ensures moved.GetOr(record) == MigrateRecord(record, forms, token, form)
      ensures moved.Some? ==> moved.value.id == record.id
    {
      if record.token == token || (record.collectionPointId.Some? && record.collectionPointId.value != "") {
        return None;
      }
      if record.token in legacyByToken {
        var point := FindPoint(form.points, legacyByToken[record.token]);
        if point.Some? {
          return Some(record.(token := token, collectionPointId := Some(point.value.id)));
        }
      }
      return None;
    }

    method OnForms(rows: seq<CachedForm>)
      requires Valid() && !formsReady && ListsForms(rows, forms)
      modifies this
      ensures Valid() && formsReady && recordsReady == old(recordsReady)
    {
      cachedForms, formsReady := rows, true;
      Migrate();
    }

    method OnRecords(rows: seq<Record>)
      requires Valid() && !recordsReady && ListsRecords(rows, original)
      modifies this
      ensures Valid() && recordsReady && formsReady == old(formsReady)
    {
      queued, recordsReady := rows, true;
      Migrate();
    }
  }

  /** migrateLegacyCollectionQueue: the result does not depend on which read answers first. */
  method MigrateLegacyCollectionQueue(token: string, form: EventForm, forms: Forms, records: Records,
                                      allForms: seq<CachedForm>, allRecords: seq<Record>, formsFirst: bool)
    returns (migrated: Records)
    requires Keyed(forms, records) && ListsForms(allForms, forms) && ListsRecords(allRecords, records)
    ensures migrated == MigrateAll(records, forms, token, form)
  {
    var t := new MigrationTransaction(token, form, forms, records);
    if formsFirst {
      t.OnForms(allForms);
      t.OnRecords(allRecords);
    } else {
      t.OnRecords(allRecords);
      t.OnForms(allForms);
    }
    migrated := t.records;
  }

  // ---------------------------------------------------------------------
  // What the migration keeps.
  // ---------------------------------------------------------------------

  /** No record is added, lost or changed beyond its token and point. A record moves exactly when it
      is unsettled and its token belongs to an old form of the same event whose code or name is one
      of the form's points; it then gets the first such point. */
  lemma MigrationKeepsRecords(records: Records, forms: Forms, token: string, form: EventForm, id: string)
    requires id in records
    ensures var r, m := records[id], MigrateAll(records, forms, token, form);
            && m.Keys == records.Keys
            && m[id].(token := r.token, collectionPointId := r.collectionPointId) == r
            && (m[id] != r <==>
                  && r.token != token && (r.collectionPointId.None? || r.collectionPointId.value == "")
                  && r.token in forms && forms[r.token].eventId == form.eventId && forms[r.token].token != token
                  && exists p :: p in form.points && (Some(p.code) == forms[r.token].code || Some(p.name) == forms[r.token].name))
            && (m[id] != r ==>
                  && m[id].token == token
                  && exists i :: 0 <= i < |form.points| && m[id].collectionPointId == Some(form.points[i].id)
                       && (Some(form.points[i].code) == forms[r.token].code || Some(form.points[i].name) == forms[r.token].name)
                       && forall j :: 0 <= j < i ==> Some(form.points[j].code) != forms[r.token].code && Some(form.points[j].name) != forms[r.token].name)
  {
  }

  ghost function TotalWeight(records: Records, ids: set<string>): real
    requires ids <= records.Keys
  {
    if ids == {} then 0.0
    else
      var id :| id in ids;
      records[id].weightKg + TotalWeight(records, ids - {id})
  }

  /** Each record adds its weight, whatever the order of summation. */
  lemma {:induction false} WeightAdds(records: Records, ids: set<string>, id: string)
    requires ids <= records.Keys && id in ids
    ensures TotalWeight(records, ids) == records[id].weightKg + TotalWeight(records, ids - {id})
    decreases |ids|
  {
    var first :| first in ids && TotalWeight(records, ids) == records[first].weightKg + TotalWeight(records, ids - {first});
    if first != id {
      WeightAdds(records, ids - {first}, id);
      WeightAdds(records, ids - {id}, first);
      assert ids - {first} - {id} == ids - {id} - {first};
    }
  }

  lemma {:induction false} SameWeights(a: Records, b: Records, ids: set<string>)
    requires ids <= a.Keys && ids <= b.Keys
    requires forall id :: id in ids ==> a[id].weightKg == b[id].weightKg
    ensures TotalWeight(a, ids) == TotalWeight(b, ids)
  {
    if ids != {} {
      var id :| id in ids && TotalWeight(a, ids) == a[id].weightKg + TotalWeight(a, ids - {id})
                && TotalWeight(b, ids) == b[id].weightKg + TotalWeight(b, ids - {id});
      SameWeights(a, b, ids - {id});
    }
  }

  /** The queued weight is conserved. */
  lemma WeightIsConserved(records: Records, forms: Forms, token: string, form: EventForm)
    ensures var m := MigrateAll(records, forms, token, form);
            m.Keys == records.Keys && TotalWeight(m, m.Keys) == TotalWeight(records, records.Keys)
  {
    var m := MigrateAll(records, forms, token, form);
    assert m.Keys == records.Keys;
    SameWeights(m, records, records.Keys);
  }

  /** Running it again changes nothing, even after the current form has been cached under its token. */
  lemma MigrationIsIdempotent(records: Records, forms: Forms, token: string, form: EventForm, cached: CachedForm)
    ensures var m := MigrateAll(records, forms, token, form);
            MigrateAll(m, forms, token, form) == m && MigrateAll(m, forms[token := cached], token, form) == m
  {
  }
}
