/**
 The two migrations that give Bike Zone forms a commune field and put it below
 the region. Fields are keyed by their unique (form_id, field_key) pair.
 */
module FieldOrder {

  type FormId = int
  datatype FieldKey = FieldKey(form: FormId, key: string)
  datatype Field = Field(sortOrder: int, fieldType: string, rest: string)
  type Fields = map<FieldKey, Field>

  const COMMUNE_POSITION := 9
  const NEW_COMMUNE := Field(COMMUNE_POSITION, "SELECT", "Comuna de residencia")

  function Region(form: FormId): FieldKey {
    FieldKey(form, "residence_region")
  }

  function Commune(form: FormId): FieldKey {
    FieldKey(form, "residence_commune")
  }

  // ---------------------------------------------------------------------
  // The statements.
  // ---------------------------------------------------------------------

  function ShiftDown(t: Fields, bike: set<FormId>): Fields {
    map k | k in t ::
      if k.form in bike && t[k].sortOrder >= COMMUNE_POSITION && Commune(k.form) !in t
      then t[k].(sortOrder := t[k].sortOrder + 1) else t[k]
  }

  function InsertCommunes(t: Fields, bike: set<FormId>): Fields {
    t + map form | form in bike && Commune(form) !in t :: Commune(form) := NEW_COMMUNE
  }

  function SelectRegions(t: Fields, bike: set<FormId>): Fields {
    map k | k in t :: if k.form in bike && k == Region(k.form) then t[k].(fieldType := "SELECT") else t[k]
  }

  predicate LiesBetween(t: Fields, k: FieldKey)
    requires k in t
  {
    var r, c := Region(k.form), Commune(k.form);
    && r in t && c in t && k != c
    && t[c].sortOrder > t[r].sortOrder + 1
    && t[r].sortOrder < t[k].sortOrder < t[c].sortOrder
  }

  function MoveDownBetween(t: Fields, bike: set<FormId>): Fields {
    map k | k in t :: if k.form in bike && LiesBetween(t, k) then t[k].(sortOrder := t[k].sortOrder + 1) else t[k]
  }

  function PlaceCommunes(t: Fields, bike: set<FormId>): Fields {
    map k | k in t ::
      if k.form in bike && k == Commune(k.form) && Region(k.form) in t && t[k].sortOrder > t[Region(k.form)].sortOrder
      then t[k].(sortOrder := t[Region(k.form)].sortOrder + 1) else t[k]
  }

  function AddCommunes(t: Fields, bike: set<FormId>): Fields {
    InsertCommunes(ShiftDown(t, bike), bike)
  }

  function NormalizeOrder(t: Fields, bike: set<FormId>): Fields {
    PlaceCommunes(MoveDownBetween(t, bike), bike)
  }

  function Normalize(t: Fields, bike: set<FormId>): Fields {
    NormalizeOrder(SelectRegions(t, bike), bike)
  }

  /** Both migrations, in order. */
  function Migrate(t: Fields, bike: set<FormId>): Fields {
    Normalize(AddCommunes(t, bike), bike)
  }

  class FormTables {
    const bike: set<FormId>
    var fields: Fields

    constructor (bike: set<FormId>, fields: Fields)
      ensures this.bike == bike && this.fields == fields
    {
      this.bike, this.fields := bike, fields;
    }

    /** Revision 0062: one commune for every Bike Zone form. Fields keep their relative order and distinct
        orders stay distinct; a form that had its commune, or is of another type, is untouched. */
    method UpgradeAddCommune()
      modifies this`fields
      ensures fields == AddCommunes(old(fields), bike)
      ensures fields.Keys == old(fields).Keys + (set f | f in bike :: Commune(f))
      ensures forall form :: form in bike && Commune(form) !in old(fields) ==>
                fields[FieldKey(form, "residence_commune")] == Field(9, "SELECT", "Comuna de residencia")
      ensures forall k :: k in old(fields) && (k.form !in bike || Commune(k.form) in old(fields)) ==> fields[k] == old(fields)[k]
      ensures forall k :: k in old(fields) ==> fields[k] == old(fields)[k].(sortOrder := fields[k].sortOrder)
      ensures forall form :: SameOrder(old(fields), fields, form)
      ensures forall form :: DistinctOrders(old(fields), form) ==> DistinctOrders(fields, form)
    {
      ghost var before := fields;
      fields := ShiftDown(fields, bike);
      fields := InsertCommunes(fields, bike);
      AddIsOrderly(before, bike);
    }

    /** Revision 0063: the region becomes a list, and a commune below it moves to the next position.
        In a form of distinct orders they stay distinct and the other fields keep their relative order. */
    method UpgradeNormalize()
      modifies this`fields
      ensures fields == Normalize(old(fields), bike)
      ensures fields.Keys == old(fields).Keys
      ensures forall k :: k in old(fields) && k.form !in bike ==> fields[k] == old(fields)[k]
      ensures forall k :: k in old(fields) ==> fields[k].rest == old(fields)[k].rest && (k != Region(k.form) ==> fields[k].fieldType == old(fields)[k].fieldType)
      ensures forall form :: form in bike && Region(form) in old(fields) ==> IsPlaced(old(fields), fields, form)
      ensures forall form :: DistinctOrders(old(fields), form) ==> DistinctOrders(fields, form) && SameOrder(old(fields), fields, form)
    {
      ghost var before := fields;
      fields := SelectRegions(fields, bike);
      fields := MoveDownBetween(fields, bike);
      fields := PlaceCommunes(fields, bike);
      NormalizeIsOrderly(before, bike);
    }
  }

  // ---------------------------------------------------------------------
  // What the migrations guarantee.
  // ---------------------------------------------------------------------

  ghost predicate DistinctOrders(t: Fields, form: FormId) {
    forall a, b :: a in t && b in t && a.form == form && b.form == form && t[a].sortOrder == t[b].sortOrder ==> a == b
  }

  /** Fields other than the commune are in the same relative order in both tables. */
  ghost predicate SameOrder(t: Fields, u: Fields, form: FormId) {
    forall a, b :: a in t && b in t && a.form == form && b.form == form && a != Commune(form) && b != Commune(form) ==>
      a in u && b in u && (t[a].sortOrder < t[b].sortOrder <==> u[a].sortOrder < u[b].sortOrder)
  }

  lemma AddAt(t: Fields, bike: set<FormId>, k: FieldKey)
    requires k in t
    ensures var u := AddCommunes(t, bike);
            k in u && u[k].sortOrder
                      == t[k].sortOrder + if k.form in bike && t[k].sortOrder >= COMMUNE_POSITION && Commune(k.form) !in t then 1 else 0
    ensures k.form !in bike || Commune(k.form) in t ==> AddCommunes(t, bike)[k] == t[k]
    ensures AddCommunes(t, bike)[k] == t[k].(sortOrder := AddCommunes(t, bike)[k].sortOrder)
  {
  }

  lemma AddedKeys(t: Fields, bike: set<FormId>)
    ensures AddCommunes(t, bike).Keys == t.Keys + (set f | f in bike :: Commune(f))
    ensures forall form :: form in bike && Commune(form) !in t ==> AddCommunes(t, bike)[Commune(form)] == NEW_COMMUNE
  {
  }

  lemma AddComparesAlike(t: Fields, bike: set<FormId>, a: FieldKey, b: FieldKey)
    requires a in t && b in t && a.form == b.form
    ensures var u := AddCommunes(t, bike);
            a in u && b in u && (t[a].sortOrder < t[b].sortOrder <==> u[a].sortOrder < u[b].sortOrder)
  {
  }

  lemma AddSeparates(t: Fields, bike: set<FormId>, a: FieldKey, b: FieldKey)
    requires DistinctOrders(t, a.form) && a.form == b.form && a != b
    requires a in AddCommunes(t, bike) && b in AddCommunes(t, bike)
    ensures AddCommunes(t, bike)[a].sortOrder != AddCommunes(t, bike)[b].sortOrder
  {
  }

  lemma AddKeepsOrder(t: Fields, bike: set<FormId>, form: FormId)
    ensures SameOrder(t, AddCommunes(t, bike), form)
    ensures DistinctOrders(t, form) ==> DistinctOrders(AddCommunes(t, bike), form)
  {
    var u := AddCommunes(t, bike);
    hide AddCommunes;
    forall a, b | a in t && b in t && a.form == form && b.form == form && a != Commune(form) && b != Commune(form)
      ensures a in u && b in u && (t[a].sortOrder < t[b].sortOrder <==> u[a].sortOrder < u[b].sortOrder)
    {
      AddComparesAlike(t, bike, a, b);
    }
    if DistinctOrders(t, form) {
      forall a, b | a in u && b in u && a.form == form && b.form == form && u[a].sortOrder == u[b].sortOrder ensures a == b {
        if a != b { AddSeparates(t, bike, a, b); }
      }
    }
  }

  lemma AddIsOrderly(t: Fields, bike: set<FormId>)
    ensures var u := AddCommunes(t, bike);
            && u.Keys == t.Keys + (set f | f in bike :: Commune(f))
            && (forall form :: form in bike && Commune(form) !in t ==> u[Commune(form)] == NEW_COMMUNE)
            && (forall k :: k in t && (k.form !in bike || Commune(k.form) in t) ==> u[k] == t[k])
            && (forall k :: k in t ==> u[k] == t[k].(sortOrder := u[k].sortOrder))
            && (forall form :: SameOrder(t, u, form))
            && (forall form :: DistinctOrders(t, form) ==> DistinctOrders(u, form))
  {
    AddedKeys(t, bike);
    forall form { AddKeepsOrder(t, bike, form); }
    forall k | k in t { AddAt(t, bike, k); }
    hide AddCommunes, SameOrder, DistinctOrders;
  }

  /** Where the two ordering statements of 0063 put a field. */
  function OrderAfter(t: Fields, bike: set<FormId>, k: FieldKey): int
    requires k in t
  {
    var x := t[k].sortOrder;
    if k.form !in bike || Region(k.form) !in t || Commune(k.form) !in t then x
    else
      var r, c := t[Region(k.form)].sortOrder, t[Commune(k.form)].sortOrder;
      if k == Commune(k.form) then (if c > r then r + 1 else c)
      else if r + 1 < c && r < x < c then x + 1
      else x
  }

  lemma SelectAt(t: Fields, bike: set<FormId>, k: FieldKey)
    ensures var s := SelectRegions(t, bike);
            && (k in s <==> k in t)
            && (k in t ==> s[k] == if k.form in bike && k == Region(k.form) then t[k].(fieldType := "SELECT") else t[k])
  {
  }

  lemma MoveAt(t: Fields, bike: set<FormId>, k: FieldKey)
    ensures var m := MoveDownBetween(t, bike);
            && (k in m <==> k in t)
            && (k in t ==> m[k] == if k.form in bike && LiesBetween(t, k) then t[k].(sortOrder := t[k].sortOrder + 1) else t[k])
  {
  }

  lemma PlaceAt(t: Fields, bike: set<FormId>, k: FieldKey)
    requires k in t
    ensures var p := PlaceCommunes(t, bike);
            && k in p
            && p[k] == if k.form in bike && k == Commune(k.form) && Region(k.form) in t && t[k].sortOrder > t[Region(k.form)].sortOrder
                       then t[k].(sortOrder := t[Region(k.form)].sortOrder + 1) else t[k]
  {
  }

  lemma NormalizeAt(t: Fields, bike: set<FormId>, k: FieldKey)
    requires k in t
    ensures k in Normalize(t, bike) && Normalize(t, bike)[k].sortOrder == OrderAfter(t, bike, k)
    ensures k.form !in bike ==> Normalize(t, bike)[k] == t[k]
    ensures k.form in bike && k == Region(k.form) ==> Normalize(t, bike)[k].fieldType == "SELECT"
    ensures Normalize(t, bike)[k].rest == t[k].rest && (k != Region(k.form) ==> Normalize(t, bike)[k].fieldType == t[k].fieldType)
  {
    var m := MoveDownBetween(SelectRegions(t, bike), bike);
    MovedAt(t, bike, k);
    if Region(k.form) in t { MovedAt(t, bike, Region(k.form)); }
    PlaceAt(m, bike, k);
    assert Normalize(t, bike) == PlaceCommunes(m, bike);
    assert Region(k.form) != Commune(k.form);
    hide SelectRegions, MoveDownBetween, PlaceCommunes, Normalize;
  }

  /** A field after the first two statements of 0063. */
  lemma MovedAt(t: Fields, bike: set<FormId>, k: FieldKey)
    requires k in t
    ensures var m := MoveDownBetween(SelectRegions(t, bike), bike);
            && (Region(k.form) in m <==> Region(k.form) in t)
            && k in m && m[k] == Field(if k.form in bike && LiesBetween(t, k) then t[k].sortOrder + 1 else t[k].sortOrder,
                             if k.form in bike && k == Region(k.form) then "SELECT" else t[k].fieldType, t[k].rest)
  {
    var s := SelectRegions(t, bike);
    SelectAt(t, bike, k);
    SelectAt(t, bike, Region(k.form));
    SelectAt(t, bike, Commune(k.form));
    MoveAt(s, bike, k);
    MoveAt(s, bike, Region(k.form));
    hide SelectRegions, MoveDownBetween;
  }

  lemma NormalizedKeys(t: Fields, bike: set<FormId>)
    ensures Normalize(t, bike).Keys == t.Keys
  {
  }

  /** Distinct orders stay apart, and fields other than the commune compare as before. */
  lemma NormalizeCompares(t: Fields, bike: set<FormId>, a: FieldKey, b: FieldKey)
    requires a in t && b in t && a.form == b.form && a != b && DistinctOrders(t, a.form)
    ensures OrderAfter(t, bike, a) != OrderAfter(t, bike, b)
    ensures a != Commune(a.form) && b != Commune(a.form) ==>
              (t[a].sortOrder < t[b].sortOrder <==> OrderAfter(t, bike, a) < OrderAfter(t, bike, b))
  {
  }

  lemma NormalizeKeepsOrder(t: Fields, bike: set<FormId>, form: FormId)
    requires DistinctOrders(t, form)
    ensures SameOrder(t, Normalize(t, bike), form) && DistinctOrders(Normalize(t, bike), form)
  {
    var u := Normalize(t, bike);
    NormalizedKeys(t, bike);
    hide Normalize, OrderAfter;
    forall a, b | a in t && b in t && a.form == form && b.form == form
      ensures a != b ==> u[a].sortOrder != u[b].sortOrder
      ensures a != Commune(form) && b != Commune(form) ==> (t[a].sortOrder < t[b].sortOrder <==> u[a].sortOrder < u[b].sortOrder)
    {
      NormalizeAt(t, bike, a);
      NormalizeAt(t, bike, b);
      if a != b { NormalizeCompares(t, bike, a, b); }
    }
  }

  /** Where 0063 leaves the region and, if there is one, the commune. */
  ghost predicate IsPlaced(t: Fields, u: Fields, form: FormId) {
    var r, c := Region(form), Commune(form);
    && r in t && r in u && u[r].fieldType == "SELECT" && u[r].sortOrder == t[r].sortOrder
    && (c in t ==> c in u && u[c].sortOrder == if t[c].sortOrder > t[r].sortOrder then u[r].sortOrder + 1 else t[c].sortOrder)
  }

  lemma NormalizeIsOrderly(t: Fields, bike: set<FormId>)
    ensures var u := Normalize(t, bike);
            && u.Keys == t.Keys
            && (forall k :: k in t && k.form !in bike ==> u[k] == t[k])
            && (forall k :: k in t ==> u[k].rest == t[k].rest && (k != Region(k.form) ==> u[k].fieldType == t[k].fieldType))
            && (forall form :: form in bike && Region(form) in t ==> IsPlaced(t, u, form))
            && (forall form :: DistinctOrders(t, form) ==> DistinctOrders(u, form) && SameOrder(t, u, form))
  {
    NormalizedKeys(t, bike);
    forall form | form in bike && Region(form) in t ensures IsPlaced(t, Normalize(t, bike), form) {
      RegionAndCommune(t, bike, form);
    }
    forall form | DistinctOrders(t, form) { NormalizeKeepsOrder(t, bike, form); }
    forall k | k in t { NormalizeAt(t, bike, k); }
    hide Normalize, SameOrder, DistinctOrders, IsPlaced;
  }

  lemma RegionAndCommune(t: Fields, bike: set<FormId>, form: FormId)
    requires form in bike && Region(form) in t
    ensures IsPlaced(t, Normalize(t, bike), form)
  {
    assert Region(form) != Commune(form);
    NormalizeAt(t, bike, Region(form));
    if Commune(form) in t { NormalizeAt(t, bike, Commune(form)); }
    hide Normalize;
  }

  lemma SameOrderTransitive(t: Fields, u: Fields, v: Fields, form: FormId)
    requires SameOrder(t, u, form) && SameOrder(u, v, form)
    ensures SameOrder(t, v, form)
  {
  }

  /** The migrations add one commune to each Bike Zone form and lose no field; sort orders stay
      distinct; all fields but the commune keep their relative order; other forms are untouched. */
  lemma MigrateKeepsOrder(t: Fields, bike: set<FormId>, form: FormId)
    requires DistinctOrders(t, form)
    ensures var u := Migrate(t, bike);
            && u.Keys == t.Keys + (set f | f in bike :: FieldKey(f, "residence_commune"))
            && (forall a, b :: a in u && b in u && a.form == form && b.form == form && u[a].sortOrder == u[b].sortOrder ==> a == b)
            && (forall a, b :: a in t && b in t && a.form == form && b.form == form
                               && a.key != "residence_commune" && b.key != "residence_commune" ==>
                  (t[a].sortOrder < t[b].sortOrder <==> u[a].sortOrder < u[b].sortOrder))
            && (form !in bike ==> forall k :: k in t && k.form == form ==> u[k] == t[k])
  {
    hide Migrate;
    MigrateIsOrderly(t, bike, form);
    assert (set f | f in bike :: Commune(f)) == (set f | f in bike :: FieldKey(f, "residence_commune"));
  }

  lemma MigrateIsOrderly(t: Fields, bike: set<FormId>, form: FormId)
    requires DistinctOrders(t, form)
    ensures var u := Migrate(t, bike);
            && u.Keys == t.Keys + (set f | f in bike :: Commune(f))
            && DistinctOrders(u, form) && SameOrder(t, u, form)
            && (form !in bike ==> forall k :: k in t && k.form == form ==> u[k] == t[k])
  {
    var a := AddCommunes(t, bike);
    var u := Normalize(a, bike);
    AddedKeys(t, bike);
    AddKeepsOrder(t, bike, form);
    NormalizedKeys(a, bike);
    NormalizeKeepsOrder(a, bike, form);
    SameOrderTransitive(t, a, u, form);
    hide AddCommunes, Normalize, SameOrder, DistinctOrders;
    forall k | k in t && k.form == form && form !in bike ensures u[k] == t[k] {
      AddAt(t, bike, k);
      NormalizeAt(a, bike, k);
    }
  }

  /** Exactly when the commune ends directly below the region: the region was above position 9 if
      the commune is new, or above the commune if the form already had one. */
  lemma CommuneBelowRegion(t: Fields, bike: set<FormId>, form: FormId)
    requires form in bike && FieldKey(form, "residence_region") in t
    ensures var u, region, commune := Migrate(t, bike), FieldKey(form, "residence_region"), FieldKey(form, "residence_commune");
            region in u && commune in u && u[region].fieldType == "SELECT" &&
            (u[commune].sortOrder == u[region].sortOrder + 1
             <==> if commune in t then t[commune].sortOrder > t[region].sortOrder else t[region].sortOrder < 9)
  {
    AddedKeys(t, bike);
    AddAt(t, bike, Region(form));
    if Commune(form) in t { AddAt(t, bike, Commune(form)); }
    RegionAndCommune(AddCommunes(t, bike), bike, form);
    hide AddCommunes, Normalize;
  }

  /** A form whose region is at position 9 gets its commune above the region. */
  lemma ARegionAtNine(form: FormId, region: Field)
    requires region.sortOrder == COMMUNE_POSITION
    ensures var u := Migrate(map[Region(form) := region], {form});
            Region(form) in u && Commune(form) in u && u[Commune(form)].sortOrder < u[Region(form)].sortOrder
  {
    var t, bike := map[Region(form) := region], {form};
    assert Region(form) != Commune(form);
    AddedKeys(t, bike);
    AddAt(t, bike, Region(form));
    RegionAndCommune(AddCommunes(t, bike), bike, form);
    hide AddCommunes, Normalize;
  }

  /** Running either migration again changes no field. */
  lemma MigrateIsIdempotent(t: Fields, bike: set<FormId>)
    ensures var u := Migrate(t, bike);
            AddCommunes(u, bike) == u && Normalize(u, bike) == u
  {
    var a := AddCommunes(t, bike);
    var u := Normalize(a, bike);
    AddedKeys(t, bike);
    NormalizedKeys(a, bike);
    NothingToAdd(u, bike);
    forall form | form in bike && Region(form) in u
      ensures u[Commune(form)].sortOrder <= u[Region(form)].sortOrder + 1 && u[Region(form)].fieldType == "SELECT"
    {
      RegionAndCommune(a, bike, form);
    }
    NothingToMove(u, bike);
  }

  lemma NothingToAdd(u: Fields, bike: set<FormId>)
    requires forall form :: form in bike ==> Commune(form) in u
    ensures AddCommunes(u, bike) == u
  {
  }

  lemma NothingToMove(u: Fields, bike: set<FormId>)
    requires forall form :: form in bike ==> Commune(form) in u
    requires forall form :: form in bike && Region(form) in u ==>
               u[Commune(form)].sortOrder <= u[Region(form)].sortOrder + 1 && u[Region(form)].fieldType == "SELECT"
    ensures Normalize(u, bike) == u
  {
    NothingToSelect(u, bike);
    NothingBetween(u, bike);
    NothingToPlace(u, bike);
    assert Normalize(u, bike) == PlaceCommunes(MoveDownBetween(SelectRegions(u, bike), bike), bike);
    hide SelectRegions, MoveDownBetween, PlaceCommunes, Normalize;
  }

  lemma NothingToSelect(u: Fields, bike: set<FormId>)
    requires forall form :: form in bike && Region(form) in u ==> u[Region(form)].fieldType == "SELECT"
    ensures SelectRegions(u, bike) == u
  {
  }

  lemma NothingBetween(u: Fields, bike: set<FormId>)
    requires forall form :: form in bike ==> Commune(form) in u
    requires forall form :: form in bike && Region(form) in u ==> u[Commune(form)].sortOrder <= u[Region(form)].sortOrder + 1
    ensures MoveDownBetween(u, bike) == u
  {
  }

  lemma NothingToPlace(u: Fields, bike: set<FormId>)
    requires forall form :: form in bike ==> Commune(form) in u
    requires forall form :: form in bike && Region(form) in u ==> u[Commune(form)].sortOrder <= u[Region(form)].sortOrder + 1
    ensures PlaceCommunes(u, bike) == u
  {
  }
}
