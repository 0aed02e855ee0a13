/** Equivalence factors of the waste-collection module, in scan order. */
module Factors {
  import opened Common

  datatype Kind = FAMILY_DAYS | MATERIAL_UNITS

  /** `rest` is every column the migrations only write. */
  datatype Factor = Factor(id: int, key: string, kind: Kind, referenceKg: real, isActive: bool, createdAt: int, rest: string)

  ghost predicate Unique(factors: seq<Factor>) {
    forall i, j :: 0 <= i < j < |factors| ==> factors[i].id != factors[j].id && factors[i].key != factors[j].key
  }

  predicate HasKey(factors: seq<Factor>, key: string) {
    exists f :: f in factors && f.key == key
  }
}

/** Revision 0074: one active family reference, at the agreed 4.5 kg. */
module FamilyReference {
  import opened Common
  import opened Factors

  const FAMILY_KEY := "FAMILY_DAILY_WASTE"
  const AGREED_KG := 4.5
  const AGREED_SOURCE := "Residuos de una familia de 4 personas"

  /** order by (key = :key) desc, is_active desc, created_at asc */
  predicate Precedes(f: Factor, g: Factor) {
    var fk, gk := f.key == FAMILY_KEY, g.key == FAMILY_KEY;
    (fk && !gk) || (fk == gk && ((f.isActive && !g.isActive) || (f.isActive == g.isActive && f.createdAt < g.createdAt)))
  }

  /** ... where kind = 'FAMILY_DAYS' limit 1; ties go to the first row scanned. */
  function Pick(factors: seq<Factor>): Option<Factor> {
    if factors == [] then None
    else
      var last, best := factors[|factors| - 1], Pick(factors[..|factors| - 1]);
      if last.kind == FAMILY_DAYS && (best.None? || Precedes(last, best.value)) then Some(last) else best
  }

  function Agreed(f: Factor): Factor {
    f.(key := FAMILY_KEY, referenceKg := AGREED_KG, isActive := true, rest := AGREED_SOURCE)
  }

  /** A row after both update statements, when `chosen` was picked. */
  function Revised(f: Factor, chosen: int): Factor {
    if f.id == chosen then Agreed(f)
    else if f.kind == FAMILY_DAYS then f.(isActive := false)
    else f
  }

  class FactorTable {
    var factors: seq<Factor>

    constructor (factors: seq<Factor>)
      ensures this.factors == factors
    {
      this.factors := factors;
    }

    /** upgrade(); false when the unique key refuses the write and the transaction is undone. */
    method SetFamilyReference(newId: int, now: int) returns (ok: bool)
      modifies this`factors
      ensures match Pick(old(factors))
              case Some(family) =>
                && (ok <==> forall f :: f in old(factors) && f.id != family.id ==> f.key != FAMILY_KEY)
                && |factors| == |old(factors)|
                && (ok ==> forall i :: 0 <= i < |factors| ==> factors[i] == Revised(old(factors)[i], family.id))
              case None =>
                && (ok <==> !HasKey(old(factors), FAMILY_KEY))
                && (ok ==> factors == old(factors) + [Factor(newId, FAMILY_KEY, FAMILY_DAYS, AGREED_KG, true, now, AGREED_SOURCE)])
      ensures !ok ==> factors == old(factors)
    {
      var family := Pick(factors);
      var snapshot := factors;
      if family.Some? {
        if exists f :: f in factors && f.id != family.value.id && f.key == FAMILY_KEY {
          return false;
        }
        factors := seq(|snapshot|, i requires 0 <= i < |snapshot| =>
          if snapshot[i].id == family.value.id then Agreed(snapshot[i]) else snapshot[i]);
        var updated := factors;
        factors := seq(|updated|, i requires 0 <= i < |updated| =>
          if updated[i].kind == FAMILY_DAYS && updated[i].id != family.value.id then updated[i].(isActive := false) else updated[i]);
        return true;
      }
      if HasKey(factors, FAMILY_KEY) {
        return false;
      }
      factors := factors + [Factor(newId, FAMILY_KEY, FAMILY_DAYS, AGREED_KG, true, now, AGREED_SOURCE)];
      return true;
    }
  }

  /** The table `t` as SetFamilyReference leaves it on success. */
  ghost predicate Succeeds(s: seq<Factor>, t: seq<Factor>, newId: int, now: int) {
    match Pick(s)
    case Some(family) =>
      && (forall f :: f in s && f.id != family.id ==> f.key != FAMILY_KEY)
      && |t| == |s| && forall i :: 0 <= i < |s| ==> t[i] == Revised(s[i], family.id)
    case None =>
      !HasKey(s, FAMILY_KEY) && t == s + [Factor(newId, FAMILY_KEY, FAMILY_DAYS, AGREED_KG, true, now, AGREED_SOURCE)]
  }

  lemma {:induction false} PickPrecedes(s: seq<Factor>)
    ensures Pick(s).None? ==> forall f :: f in s ==> f.kind != FAMILY_DAYS
    ensures Pick(s).Some? ==> Pick(s).value in s && Pick(s).value.kind == FAMILY_DAYS
                              && forall f :: f in s && f.kind == FAMILY_DAYS ==> !Precedes(f, Pick(s).value)
  {
    if s != [] {
      PickPrecedes(s[..|s| - 1]);
      assert forall f :: f in s <==> f in s[..|s| - 1] || f == s[|s| - 1];
    }
  }

  /** The chosen row: a family row, the one under the family key if there is one; else an active one if there
      is one; and among those the oldest. */
  lemma PickIsBest(s: seq<Factor>)
    ensures Pick(s).None? <==> forall f :: f in s ==> f.kind != FAMILY_DAYS
    ensures Pick(s).Some? ==>
              var best := Pick(s).value;
              && best in s && best.kind == FAMILY_DAYS
              && forall f :: f in s && f.kind == FAMILY_DAYS ==>
                   && (f.key == "FAMILY_DAILY_WASTE" ==> best.key == "FAMILY_DAILY_WASTE")
                   && (f.isActive && (f.key == best.key || best.key != "FAMILY_DAILY_WASTE") ==> best.isActive)
                   && (f.isActive == best.isActive && (f.key == best.key || best.key != "FAMILY_DAILY_WASTE") ==> best.createdAt <= f.createdAt)
  {
    PickPrecedes(s);
  }

  /** It fails exactly when a row of another kind holds the family key. */
  lemma FailsOnAForeignKey(s: seq<Factor>, newId: int, now: int)
    requires Unique(s)
    ensures (exists t :: Succeeds(s, t, newId, now)) <==> forall f :: f in s && f.key == FAMILY_KEY ==> f.kind == FAMILY_DAYS
  {
    PickIsBest(s);
    if forall f :: f in s && f.key == FAMILY_KEY ==> f.kind == FAMILY_DAYS {
      match Pick(s)
      case Some(family) =>
        forall f | f in s && f.id != family.id ensures f.key != FAMILY_KEY {
          assert f.kind == FAMILY_DAYS ==> !Precedes(f, family);
        }
        var t := seq(|s|, i requires 0 <= i < |s| => Revised(s[i], family.id));
        assert Succeeds(s, t, newId, now);
      case None =>
        assert Succeeds(s, s + [Factor(newId, FAMILY_KEY, FAMILY_DAYS, AGREED_KG, true, now, AGREED_SOURCE)], newId, now);
    }
  }

  /** A material row under the family key, and no family row: the insert is refused. */
  lemma AForeignKeyFails(f: Factor, newId: int, now: int)
    requires f.key == FAMILY_KEY && f.kind == MATERIAL_UNITS
    ensures Unique([f]) && !exists t :: Succeeds([f], t, newId, now)
  {
    FailsOnAForeignKey([f], newId, now);
  }

  /** Row k is the family row, and every other one is inactive and under another key. */
  ghost predicate OnlyFamilyRow(t: seq<Factor>, k: nat) {
    && k < |t| && t[k].kind == FAMILY_DAYS && t[k].key == FAMILY_KEY && t[k].referenceKg == AGREED_KG && t[k].isActive
    && t[k].rest == AGREED_SOURCE
    && forall i :: 0 <= i < |t| && i != k ==>
         t[i].key != FAMILY_KEY && t[i].id != t[k].id && (t[i].kind == FAMILY_DAYS ==> !t[i].isActive)
  }

  lemma TheFamilyRow(s: seq<Factor>, t: seq<Factor>, newId: int, now: int) returns (k: nat)
    requires Unique(s) && (forall f :: f in s ==> f.id != newId) && Succeeds(s, t, newId, now)
    ensures OnlyFamilyRow(t, k)
  {
    PickIsBest(s);
    hide Pick;
    k := if Pick(s).Some? then IndexOf(s, Pick(s).value) else |s|;
    forall i | 0 <= i < |t| && i != k ensures t[i].key != FAMILY_KEY && t[i].id != t[k].id && (t[i].kind == FAMILY_DAYS ==> !t[i].isActive) {
      if i < |s| { assert s[i] in s; }
    }
  }

  lemma SecondRun(t: seq<Factor>, k: nat, newId: int, now: int)
    requires OnlyFamilyRow(t, k)
    ensures Succeeds(t, t, newId, now)
  {
    PickIsBest(t);
    hide Pick;
    assert t[k] in t;
    assert Pick(t).value == t[k];
    forall i | 0 <= i < |t| ensures t[i] == Revised(t[i], t[k].id) {}
  }

  /** Exactly one family row is active, at 4.5 kg under the family key; rows of other kinds are
      untouched and no row is lost; running it again changes nothing. */
  lemma OneActiveFamilyRow(s: seq<Factor>, t: seq<Factor>, newId: int, now: int)
    requires Unique(s) && (forall f :: f in s ==> f.id != newId) && Succeeds(s, t, newId, now)
    ensures exists k :: 0 <= k < |t| && t[k].kind == FAMILY_DAYS && t[k].key == "FAMILY_DAILY_WASTE" && t[k].referenceKg == 4.5
              && t[k].rest == "Residuos de una familia de 4 personas"
              && t[k].isActive && forall i :: 0 <= i < |t| && t[i].kind == FAMILY_DAYS && t[i].isActive ==> i == k
    ensures |t| >= |s| && forall i :: 0 <= i < |s| ==>
              && t[i].id == s[i].id && t[i].kind == s[i].kind && t[i].createdAt == s[i].createdAt
              && (s[i].kind != FAMILY_DAYS ==> t[i] == s[i])
              && (s[i].kind == FAMILY_DAYS && !t[i].isActive ==> t[i] == s[i].(isActive := false))
    ensures forall newId', now' :: Succeeds(t, t, newId', now')
  {
    var k := TheFamilyRow(s, t, newId, now);
    forall newId', now' ensures Succeeds(t, t, newId', now') {
      SecondRun(t, k, newId', now');
    }
    PickIsBest(s);
    OtherKindsUntouched(s, t, newId, now);
    hide Succeeds, Pick;
  }

  lemma OtherKindsUntouched(s: seq<Factor>, t: seq<Factor>, newId: int, now: int)
    requires Unique(s) && Succeeds(s, t, newId, now)
    ensures |t| >= |s| && forall i :: 0 <= i < |s| ==>
              && t[i].id == s[i].id && t[i].kind == s[i].kind && t[i].createdAt == s[i].createdAt
              && (s[i].kind != FAMILY_DAYS ==> t[i] == s[i])
              && (s[i].kind == FAMILY_DAYS && !t[i].isActive ==> t[i] == s[i].(isActive := false))
  {
    PickIsBest(s);
    hide Pick;
    if Pick(s).Some? {
      var k := IndexOf(s, Pick(s).value);
      assert forall i :: 0 <= i < |s| && s[i].id == s[k].id ==> i == k;
    }
  }

  function IndexOf(s: seq<Factor>, f: Factor): (k: nat)
    requires f in s
    ensures k < |s| && s[k] == f
  {
    if s[0] == f then 0 else IndexOf(s[1..], f) + 1
  }
}

/** Revision 0075: missing materials and their factors. */
module MaterialCatalog {
  import opened Common
  import opened Factors

  datatype WasteType = WasteType(id: string, name: string)

  /** A material to have: any of the accepted plain names will do. */
  datatype TypeSpec = TypeSpec(name: string, accepted: set<string>)

  datatype FactorSpec = FactorSpec(material: nat, suffix: string, referenceKg: real, activate: bool)

  function FirstMatch(types: seq<WasteType>, accepted: set<string>, plain: string -> string): Option<WasteType> {
    if types == [] then None
    else if plain(types[0].name) in accepted then Some(types[0])
    else FirstMatch(types[1..], accepted, plain)
  }

  /** The table of materials, and the ids found or given so far. */
  datatype Resolved = Resolved(types: seq<WasteType>, ids: seq<string>)

  /** _ensure_type, adding the material's id to those of earlier calls. */
  function EnsureType(r: Resolved, spec: TypeSpec, newId: string, plain: string -> string): Resolved {
    match FirstMatch(r.types, spec.accepted, plain)
    case Some(row) => Resolved(r.types, r.ids + [row.id])
    case None => Resolved(r.types + [WasteType(newId, spec.name)], r.ids + [newId])
  }

  function FactorKey(materialId: string, suffix: string): string {
    "MATERIAL_" + materialId + "_" + suffix
  }

  function Activate(factors: seq<Factor>, key: string): (r: seq<Factor>)
    ensures |r| == |factors|
    ensures forall i :: 0 <= i < |r| ==> r[i] == if factors[i].key == key then factors[i].(isActive := true) else factors[i]
  {
    seq(|factors|, i requires 0 <= i < |factors| => if factors[i].key == key then factors[i].(isActive := true) else factors[i])
  }

  /** _ensure_factor */
  function EnsureFactor(factors: seq<Factor>, key: string, spec: FactorSpec, newId: int): seq<Factor> {
    if HasKey(factors, key) then (if spec.activate then Activate(factors, key) else factors)
    else factors + [Factor(newId, key, MATERIAL_UNITS, spec.referenceKg, true, 0, "")]
  }

  function EnsureTypes(types: seq<WasteType>, specs: seq<TypeSpec>, newIds: seq<string>, plain: string -> string): (r: Resolved)
    requires |newIds| == |specs|
    ensures |r.ids| == |specs|
  {
    if specs == [] then Resolved(types, [])
    else
      var n := |specs| - 1;
      EnsureType(EnsureTypes(types, specs[..n], newIds[..n], plain), specs[n], newIds[n], plain)
  }

  predicate RefersTo(specs: seq<FactorSpec>, ids: seq<string>) {
    forall i :: 0 <= i < |specs| ==> specs[i].material < |ids|
  }

  function EnsureFactors(factors: seq<Factor>, specs: seq<FactorSpec>, ids: seq<string>, newIds: seq<int>): seq<Factor>
    requires |newIds| == |specs| && RefersTo(specs, ids)
  {
    if specs == [] then factors
    else
      var n := |specs| - 1;
      EnsureFactor(EnsureFactors(factors, specs[..n], ids, newIds[..n]), FactorKey(ids[specs[n].material], specs[n].suffix), specs[n], newIds[n])
  }

  const FLEXIBLE := "Pl\U{E1}stico Flexible"
  const POLYPROPYLENE := "Pl\U{E1}stico Polipropileno"
  const CARDBOARD := "Cart\U{F3}n"
  const TETRAPACK := "Tetrapack"
  const ORGANIC := "Residuos Org\U{E1}nicos"

  function Materials(plain: string -> string): seq<TypeSpec> {
    [TypeSpec(FLEXIBLE, {plain(FLEXIBLE)}),
     TypeSpec(POLYPROPYLENE, {"plastico polipropileno", "polipropileno"}),
     TypeSpec(CARDBOARD, {plain(CARDBOARD)}),
     TypeSpec(TETRAPACK, {"tetrapack", "tetrapak", "tetra pak", "envase larga vida"}),
     TypeSpec(ORGANIC, {"organico", "residuos organicos"})]
  }

  /** Reference weights are 1 / rate, rounded to six decimals. */
  const FACTORS: seq<FactorSpec> :=
    [FactorSpec(4, "FOOD_WASTE_CO2E", 1.388889, true),
     FactorSpec(1, "PP_LED_HOURS", 0.000695, false),
     FactorSpec(2, "CORRUGATED_KWH", 0.204918, false),
     FactorSpec(2, "CORRUGATED_PHONE_CHARGES", 0.003584, false),
     FactorSpec(3, "TETRA_FIBER", 1.428571, false),
     FactorSpec(3, "TETRA_POLYMERS", 4.0, false),
     FactorSpec(3, "TETRA_ALUMINUM", 20.0, false)]

  class CatalogTables {
    const plain: string -> string
    var types: seq<WasteType>
    var factors: seq<Factor>

    constructor (plain: string -> string, types: seq<WasteType>, factors: seq<Factor>)
      ensures this.plain == plain && this.types == types && this.factors == factors
    {
      this.plain, this.types, this.factors := plain, types, factors;
    }

    /** _ensure_type. `ids` are the ids that earlier calls returned. */
    method EnsureTypeRow(ghost ids: seq<string>, spec: TypeSpec, newId: string) returns (id: string)
      modifies this`types
      ensures Resolved(types, ids + [id]) == EnsureType(Resolved(old(types), ids), spec, newId, plain)
    {
      var existing := FirstMatch(types, spec.accepted, plain);
      if existing.Some? {
        return existing.value.id;
      }
      types := types + [WasteType(newId, spec.name)];
      return newId;
    }

    /** _ensure_factor */
    method EnsureFactorRow(materialId: string, spec: FactorSpec, newId: int)
      modifies this`factors
      ensures factors == EnsureFactor(old(factors), FactorKey(materialId, spec.suffix), spec, newId)
    {
      var key := FactorKey(materialId, spec.suffix);
      if HasKey(factors, key) {
        if spec.activate {
          factors := Activate(factors, key);
        }
        return;
      }
      factors := factors + [Factor(newId, key, MATERIAL_UNITS, spec.referenceKg, true, 0, "")];
    }

    /** The material calls of upgrade(), in order. */
    method EnsureMaterials(newIds: seq<string>) returns (ids: seq<string>)
      requires |newIds| == |Materials(plain)|
      modifies this`types
      ensures Resolved(types, ids) == EnsureTypes(old(types), Materials(plain), newIds, plain)
    {
      var specs := Materials(plain);
      ids := [];
      for i := 0 to |specs|
        invariant Resolved(types, ids) == EnsureTypes(old(types), specs[..i], newIds[..i], plain)
      {
        assert specs[..i + 1][..i] == specs[..i] && newIds[..i + 1][..i] == newIds[..i];
        var id := EnsureTypeRow(ids, specs[i], newIds[i]);
        ids := ids + [id];
      }
      assert specs[..|specs|] == specs && newIds[..|newIds|] == newIds;
    }

    /** The factor calls of upgrade(), in order. */
    method EnsureAllFactors(ids: seq<string>, newIds: seq<int>)
      requires RefersTo(FACTORS, ids) && |newIds| == |FACTORS|
      modifies this`factors
      ensures factors == EnsureFactors(old(factors), FACTORS, ids, newIds)
    {
      hide EnsureFactor, FactorKey;
      var specs := FACTORS;
      for i := 0 to |specs|
        invariant factors == EnsureFactors(old(factors), specs[..i], ids, newIds[..i])
      {
        LastFactor(old(factors), specs, ids, newIds, i);
        EnsureFactorRow(ids[specs[i].material], specs[i], newIds[i]);
      }
      assert specs[..|specs|] == specs && newIds[..|newIds|] == newIds;
    }

    method Upgrade(typeIds: seq<string>, factorIds: seq<int>)
      requires |typeIds| == |Materials(plain)| && |factorIds| == |FACTORS|
      modifies this`types, this`factors
      ensures var r := EnsureTypes(old(types), Materials(plain), typeIds, plain);
              && RefersTo(FACTORS, r.ids)
              && types == r.types && factors == EnsureFactors(old(factors), FACTORS, r.ids, factorIds)
    {
      var ids := EnsureMaterials(typeIds);
      EnsureAllFactors(ids, factorIds);
    }
  }

  // ---------------------------------------------------------------------
  // Materials.
  // ---------------------------------------------------------------------

  lemma {:induction false} FirstMatchSurvivesAppend(types: seq<WasteType>, more: seq<WasteType>, accepted: set<string>, plain: string -> string)
    ensures FirstMatch(types + more, accepted, plain)
         == if FirstMatch(types, accepted, plain).Some? then FirstMatch(types, accepted, plain) else FirstMatch(more, accepted, plain)
  {
    if types == [] {
      assert types + more == more;
    } else {
      assert (types + more)[1..] == types[1..] + more;
      FirstMatchSurvivesAppend(types[1..], more, accepted, plain);
    }
  }

  /** Each material's name is itself an accepted spelling. */
  ghost predicate SelfAccepting(specs: seq<TypeSpec>, plain: string -> string) {
    forall i :: 0 <= i < |specs| ==> plain(specs[i].name) in specs[i].accepted
  }

  /** The upgrade only appends materials, and ends with each one's id being that of the first row
      with an accepted name: an existing alias is reused, never doubled. */
  lemma {:induction false} MaterialsResolved(types: seq<WasteType>, specs: seq<TypeSpec>, newIds: seq<string>, plain: string -> string, i: nat)
    requires |newIds| == |specs| && SelfAccepting(specs, plain) && i < |specs|
    ensures var r := EnsureTypes(types, specs, newIds, plain);
            && types <= r.types
            && FirstMatch(r.types, specs[i].accepted, plain).Some?
            && r.ids[i] == FirstMatch(r.types, specs[i].accepted, plain).value.id
            && (FirstMatch(types, specs[i].accepted, plain).Some? ==> r.ids[i] == FirstMatch(types, specs[i].accepted, plain).value.id)
  {
    var n := |specs| - 1;
    var r, r' := EnsureTypes(types, specs[..n], newIds[..n], plain), EnsureTypes(types, specs, newIds, plain);
    TypesGrow(types, specs[..n], newIds[..n], plain);
    TypesGrow(types, specs, newIds, plain);
    assert types + r.types[|types|..] == r.types && r.types + r'.types[|r.types|..] == r'.types;
    FirstMatchSurvivesAppend(types, r.types[|types|..], specs[i].accepted, plain);
    FirstMatchSurvivesAppend(r.types, r'.types[|r.types|..], specs[i].accepted, plain);
    if i < n {
      assert specs[..n][i] == specs[i];
      MaterialsResolved(types, specs[..n], newIds[..n], plain, i);
    } else {
      var row := WasteType(newIds[n], specs[n].name);
      assert r'.types == r.types || r'.types[|r.types|..] == [row];
      assert FirstMatch([row], specs[n].accepted, plain) == Some(row);
    }
  }

  lemma {:induction false} TypesGrow(types: seq<WasteType>, specs: seq<TypeSpec>, newIds: seq<string>, plain: string -> string)
    requires |newIds| == |specs|
    ensures types <= EnsureTypes(types, specs, newIds, plain).types
  {
    if specs != [] { TypesGrow(types, specs[..|specs| - 1], newIds[..|specs| - 1], plain); }
  }

  lemma {:induction false} NoTypeMissing(types: seq<WasteType>, specs: seq<TypeSpec>, newIds: seq<string>, plain: string -> string)
    requires |newIds| == |specs|
    requires forall i :: 0 <= i < |specs| ==> FirstMatch(types, specs[i].accepted, plain).Some?
    ensures EnsureTypes(types, specs, newIds, plain).types == types
    ensures forall i :: 0 <= i < |specs| ==> EnsureTypes(types, specs, newIds, plain).ids[i] == FirstMatch(types, specs[i].accepted, plain).value.id
  {
    if specs != [] { NoTypeMissing(types, specs[..|specs| - 1], newIds[..|specs| - 1], plain); }
  }

  /** A second run finds every material, adds none and returns the same ids. */
  lemma MaterialsAreIdempotent(types: seq<WasteType>, specs: seq<TypeSpec>, newIds: seq<string>, newIds': seq<string>, plain: string -> string)
    requires |newIds| == |newIds'| == |specs| && SelfAccepting(specs, plain)
    ensures var r := EnsureTypes(types, specs, newIds, plain);
            EnsureTypes(r.types, specs, newIds', plain) == r
  {
    var r := EnsureTypes(types, specs, newIds, plain);
    forall i | 0 <= i < |specs|
      ensures FirstMatch(r.types, specs[i].accepted, plain).Some? && r.ids[i] == FirstMatch(r.types, specs[i].accepted, plain).value.id
    {
      MaterialsResolved(types, specs, newIds, plain, i);
    }
    NoTypeMissing(r.types, specs, newIds', plain);
    assert EnsureTypes(r.types, specs, newIds', plain).ids == r.ids;
  }

  // ---------------------------------------------------------------------
  // Factors.
  // ---------------------------------------------------------------------

  /** Nothing is left to do for this factor. */
  ghost predicate Satisfied(factors: seq<Factor>, key: string, activate: bool) {
    HasKey(factors, key) && (activate ==> forall f :: f in factors && f.key == key ==> f.isActive)
  }

  lemma EnsureFactorKeeps(factors: seq<Factor>, key: string, spec: FactorSpec, newId: int, other: string, activate: bool)
    ensures var after := EnsureFactor(factors, key, spec, newId);
            && Satisfied(after, key, spec.activate)
            && (Satisfied(factors, other, activate) ==> Satisfied(after, other, activate))
            && (Satisfied(factors, key, spec.activate) ==> after == factors)
  {
  }

  lemma {:induction false} FactorsSatisfied(factors: seq<Factor>, specs: seq<FactorSpec>, ids: seq<string>, newIds: seq<int>, k: nat)
    requires |newIds| == |specs| && RefersTo(specs, ids) && k < |specs|
    ensures Satisfied(EnsureFactors(factors, specs, ids, newIds), FactorKey(ids[specs[k].material], specs[k].suffix), specs[k].activate)
  {
    var n := |specs| - 1;
    var before := EnsureFactors(factors, specs[..n], ids, newIds[..n]);
    EnsureFactorKeeps(before, FactorKey(ids[specs[n].material], specs[n].suffix), specs[n], newIds[n],
                      FactorKey(ids[specs[k].material], specs[k].suffix), specs[k].activate);
    if k < n { FactorsSatisfied(factors, specs[..n], ids, newIds[..n], k); }
  }

  lemma {:induction false} SatisfiedFactorsStay(factors: seq<Factor>, specs: seq<FactorSpec>, ids: seq<string>, newIds: seq<int>)
    requires |newIds| == |specs| && RefersTo(specs, ids)
    requires forall k :: 0 <= k < |specs| ==> Satisfied(factors, FactorKey(ids[specs[k].material], specs[k].suffix), specs[k].activate)
    ensures EnsureFactors(factors, specs, ids, newIds) == factors
  {
    if specs != [] {
      var n := |specs| - 1;
      SatisfiedFactorsStay(factors, specs[..n], ids, newIds[..n]);
      EnsureFactorKeeps(factors, FactorKey(ids[specs[n].material], specs[n].suffix), specs[n], newIds[n], "", false);
    }
  }

  /** Running the factor step again changes nothing. */
  lemma FactorsAreIdempotent(factors: seq<Factor>, specs: seq<FactorSpec>, ids: seq<string>, newIds: seq<int>, newIds': seq<int>)
    requires |newIds| == |newIds'| == |specs| && RefersTo(specs, ids)
    ensures var after := EnsureFactors(factors, specs, ids, newIds);
            EnsureFactors(after, specs, ids, newIds') == after
  {
    var after := EnsureFactors(factors, specs, ids, newIds);
    forall k | 0 <= k < |specs|
      ensures Satisfied(after, FactorKey(ids[specs[k].material], specs[k].suffix), specs[k].activate)
    {
      FactorsSatisfied(factors, specs, ids, newIds, k);
    }
    SatisfiedFactorsStay(after, specs, ids, newIds');
  }

  /** An existing factor is never edited: at most it becomes active, and only under a key that asks for it. */
  lemma {:induction false} ExistingFactorsKept(factors: seq<Factor>, specs: seq<FactorSpec>, ids: seq<string>, newIds: seq<int>, i: nat)
    requires |newIds| == |specs| && RefersTo(specs, ids) && i < |factors|
    ensures var after := EnsureFactors(factors, specs, ids, newIds);
            && i < |after|
            && (after[i] == factors[i]
                || (after[i] == factors[i].(isActive := true)
                    && exists k :: 0 <= k < |specs| && specs[k].activate && factors[i].key == FactorKey(ids[specs[k].material], specs[k].suffix)))
  {
    if specs != [] {
      var n := |specs| - 1;
      ExistingFactorsKept(factors, specs[..n], ids, newIds[..n], i);
      assert forall k :: 0 <= k < n ==> specs[..n][k] == specs[k];
    }
  }

  /** The whole revision is idempotent: its materials are found, its factors exist, nothing changes. */
  lemma RevisionIsIdempotent(types: seq<WasteType>, factors: seq<Factor>, plain: string -> string,
                             typeIds: seq<string>, factorIds: seq<int>, typeIds': seq<string>, factorIds': seq<int>)
    requires |typeIds| == |typeIds'| == 5 && |factorIds| == |factorIds'| == 7
    requires plain(POLYPROPYLENE) == "plastico polipropileno" && plain(TETRAPACK) == "tetrapack" && plain(ORGANIC) == "residuos organicos"
    ensures var r := EnsureTypes(types, Materials(plain), typeIds, plain);
            && RefersTo(FACTORS, r.ids)
            && var after := EnsureFactors(factors, FACTORS, r.ids, factorIds);
               && EnsureTypes(r.types, Materials(plain), typeIds', plain) == r
               && EnsureFactors(after, FACTORS, r.ids, factorIds') == after
  {
    MaterialsAreIdempotent(types, Materials(plain), typeIds, typeIds', plain);
    FactorsAreIdempotent(factors, FACTORS, EnsureTypes(types, Materials(plain), typeIds, plain).ids, factorIds, factorIds');
  }

  // ---------------------------------------------------------------------
  // What the revision names.
  // ---------------------------------------------------------------------

  /** An existing row under any accepted name of a material is the material. */
  lemma AliasesAreReused(row: WasteType, plain: string -> string, newIds: seq<string>)
    requires |newIds| == 5 && SelfAccepting(Materials(plain), plain)
    ensures var ids := EnsureTypes([row], Materials(plain), newIds, plain).ids;
            && (plain(row.name) == plain("Pl\U{E1}stico Flexible") ==> ids[0] == row.id)
            && (plain(row.name) in {"plastico polipropileno", "polipropileno"} ==> ids[1] == row.id)
            && (plain(row.name) == plain("Cart\U{F3}n") ==> ids[2] == row.id)
            && (plain(row.name) in {"tetrapack", "tetrapak", "tetra pak", "envase larga vida"} ==> ids[3] == row.id)
            && (plain(row.name) in {"organico", "residuos organicos"} ==> ids[4] == row.id)
  {
    var specs := Materials(plain);
    assert forall i :: 0 <= i < 5 && plain(row.name) in specs[i].accepted ==> FirstMatch([row], specs[i].accepted, plain) == Some(row);
    forall i | 0 <= i < 5 { MaterialsResolved([row], specs, newIds, plain, i); }
    hide EnsureTypes, FirstMatch;
  }

  /** A catalog without any of them gets the five materials, under their names. */
  lemma MissingMaterialsAreNamed(plain: string -> string, newIds: seq<string>)
    requires |newIds| == 5
    requires plain("Pl\U{E1}stico Flexible") == "plastico flexible" && plain("Pl\U{E1}stico Polipropileno") == "plastico polipropileno"
    requires plain("Cart\U{F3}n") == "carton" && plain("Tetrapack") == "tetrapack" && plain("Residuos Org\U{E1}nicos") == "residuos organicos"
    ensures EnsureTypes([], Materials(plain), newIds, plain)
         == Resolved([WasteType(newIds[0], "Pl\U{E1}stico Flexible"), WasteType(newIds[1], "Pl\U{E1}stico Polipropileno"),
                      WasteType(newIds[2], "Cart\U{F3}n"), WasteType(newIds[3], "Tetrapack"),
                      WasteType(newIds[4], "Residuos Org\U{E1}nicos")], newIds)
  {
    hide EnsureTypes, EnsureType, FirstMatch;
    var specs := Materials(plain);
    NoneAccepted(plain);
    AllMissing(specs, newIds, plain, 5);
    assert specs[..5] == specs && newIds[..5] == newIds;
  }

  lemma NoneAccepted(plain: string -> string)
    requires plain("Pl\U{E1}stico Flexible") == "plastico flexible" && plain("Pl\U{E1}stico Polipropileno") == "plastico polipropileno"
    requires plain("Cart\U{F3}n") == "carton" && plain("Tetrapack") == "tetrapack" && plain("Residuos Org\U{E1}nicos") == "residuos organicos"
    ensures var specs := Materials(plain);
            forall i, j :: 0 <= j < i < 5 ==> plain(specs[j].name) !in specs[i].accepted
  {
    NamesDiffer();
    var specs := Materials(plain);
    assert forall j :: 0 <= j < 1 ==> plain(specs[j].name) !in specs[1].accepted;
    assert forall j :: 0 <= j < 2 ==> plain(specs[j].name) !in specs[2].accepted;
    assert forall j :: 0 <= j < 3 ==> plain(specs[j].name) !in specs[3].accepted;
    assert forall j :: 0 <= j < 4 ==> plain(specs[j].name) !in specs[4].accepted;
  }

  lemma NamesDiffer()
    ensures var plains := ["plastico flexible", "plastico polipropileno", "carton", "tetrapack", "residuos organicos"];
            && |plains[0]| == 17 && |plains[1]| == 22 && |plains[2]| == 6 && |plains[3]| == 9 && |plains[4]| == 18
            && |"polipropileno"| == 13 && |"tetrapak"| == 8 && |"tetra pak"| == 9 && |"envase larga vida"| == 17 && |"organico"| == 8
    ensures "tetra pak"[5] != "tetrapack"[5] && "envase larga vida"[0] != "plastico flexible"[0]
  {
  }

  lemma LastType(types: seq<WasteType>, specs: seq<TypeSpec>, newIds: seq<string>, plain: string -> string, k: nat)
    requires |specs| == |newIds| && k < |specs|
    ensures EnsureTypes(types, specs[..k + 1], newIds[..k + 1], plain)
         == EnsureType(EnsureTypes(types, specs[..k], newIds[..k], plain), specs[k], newIds[k], plain)
  {
    assert specs[..k + 1][..k] == specs[..k] && newIds[..k + 1][..k] == newIds[..k];
  }

  lemma LastFactor(factors: seq<Factor>, specs: seq<FactorSpec>, ids: seq<string>, newIds: seq<int>, k: nat)
    requires |specs| == |newIds| && RefersTo(specs, ids) && k < |specs|
    ensures EnsureFactors(factors, specs[..k + 1], ids, newIds[..k + 1])
         == EnsureFactor(EnsureFactors(factors, specs[..k], ids, newIds[..k]), FactorKey(ids[specs[k].material], specs[k].suffix), specs[k], newIds[k])
  {
    assert specs[..k + 1][..k] == specs[..k] && newIds[..k + 1][..k] == newIds[..k];
  }

  lemma NoMatch(r: Resolved, spec: TypeSpec, newId: string, plain: string -> string)
    requires forall j :: 0 <= j < |r.types| ==> plain(r.types[j].name) !in spec.accepted
    ensures EnsureType(r, spec, newId, plain) == Resolved(r.types + [WasteType(newId, spec.name)], r.ids + [newId])
  {
    NoFirst(r.types, spec.accepted, plain);
  }

  lemma NoFirst(types: seq<WasteType>, accepted: set<string>, plain: string -> string)
    requires forall j :: 0 <= j < |types| ==> plain(types[j].name) !in accepted
    ensures FirstMatch(types, accepted, plain) == None
  {
  }

  function FreshTypes(specs: seq<TypeSpec>, newIds: seq<string>, n: nat): (types: seq<WasteType>)
    requires |newIds| == |specs| && n <= |specs|
    ensures |types| == n && forall i :: 0 <= i < n ==> types[i] == WasteType(newIds[i], specs[i].name)
  {
    if n == 0 then [] else FreshTypes(specs, newIds, n - 1) + [WasteType(newIds[n - 1], specs[n - 1].name)]
  }

  /** Every material missing: each gets its row, in order. */
  lemma {:induction false} AllMissing(specs: seq<TypeSpec>, newIds: seq<string>, plain: string -> string, n: nat)
    requires |newIds| == |specs| && n <= |specs|
    requires forall i, j :: 0 <= j < i < |specs| ==> plain(specs[j].name) !in specs[i].accepted
    ensures EnsureTypes([], specs[..n], newIds[..n], plain) == Resolved(FreshTypes(specs, newIds, n), newIds[..n])
  {
    if n > 0 {
      hide EnsureTypes, EnsureType, FreshTypes;
      AllMissing(specs, newIds, plain, n - 1);
      LastType([], specs, newIds, plain, n - 1);
      NextIsMissing(specs, newIds, plain, n - 1);
    } else {
      assert EnsureTypes([], [], [], plain) == Resolved([], []);
    }
  }

  lemma NextIsMissing(specs: seq<TypeSpec>, newIds: seq<string>, plain: string -> string, k: nat)
    requires |newIds| == |specs| && k < |specs|
    requires forall j :: 0 <= j < k ==> plain(specs[j].name) !in specs[k].accepted
    ensures EnsureType(Resolved(FreshTypes(specs, newIds, k), newIds[..k]), specs[k], newIds[k], plain)
         == Resolved(FreshTypes(specs, newIds, k + 1), newIds[..k + 1])
  {
    hide EnsureType;
    NoMatch(Resolved(FreshTypes(specs, newIds, k), newIds[..k]), specs[k], newIds[k], plain);
    assert newIds[..k + 1] == newIds[..k] + [newIds[k]];
  }

  /** Each factor the revision adds, by key and weight. */
  predicate IsRevisionFactor(f: Factor, ids: seq<string>)
    requires |ids| == 5
  {
    && f.kind == MATERIAL_UNITS && f.isActive
    && (|| (f.key == "MATERIAL_" + ids[4] + "_" + "FOOD_WASTE_CO2E" && f.referenceKg == 1.388889)
        || (f.key == "MATERIAL_" + ids[1] + "_" + "PP_LED_HOURS" && f.referenceKg == 0.000695)
        || (f.key == "MATERIAL_" + ids[2] + "_" + "CORRUGATED_KWH" && f.referenceKg == 0.204918)
        || (f.key == "MATERIAL_" + ids[2] + "_" + "CORRUGATED_PHONE_CHARGES" && f.referenceKg == 0.003584)
        || (f.key == "MATERIAL_" + ids[3] + "_" + "TETRA_FIBER" && f.referenceKg == 1.428571)
        || (f.key == "MATERIAL_" + ids[3] + "_" + "TETRA_POLYMERS" && f.referenceKg == 4.0)
        || (f.key == "MATERIAL_" + ids[3] + "_" + "TETRA_ALUMINUM" && f.referenceKg == 20.0))
  }

  lemma {:induction false} AddedFactors(factors: seq<Factor>, specs: seq<FactorSpec>, ids: seq<string>, newIds: seq<int>, i: nat)
    requires |newIds| == |specs| && RefersTo(specs, ids)
    ensures var after := EnsureFactors(factors, specs, ids, newIds);
            && |after| >= |factors|
            && (|factors| <= i < |after| ==>
                  exists k :: 0 <= k < |specs| && after[i].key == FactorKey(ids[specs[k].material], specs[k].suffix)
                                && after[i].referenceKg == specs[k].referenceKg && after[i].kind == MATERIAL_UNITS && after[i].isActive)
  {
    if specs != [] {
      var n := |specs| - 1;
      AddedFactors(factors, specs[..n], ids, newIds[..n], i);
      assert forall k :: 0 <= k < n ==> specs[..n][k] == specs[k];
      hide FactorKey;
    }
  }

  /** The revision adds no other factor, leaves every existing one alone but the composting one, and that one
      ends active. Afterwards all seven keys exist. */
  lemma RevisionFactors(factors: seq<Factor>, ids: seq<string>, newIds: seq<int>, i: nat)
    requires |ids| == 5 && |newIds| == 7
    ensures var after := EnsureFactors(factors, FACTORS, ids, newIds);
            && |after| >= |factors|
            && (|factors| <= i < |after| ==> IsRevisionFactor(after[i], ids))
            && (i < |factors| ==>
                  after[i] == if factors[i].key == "MATERIAL_" + ids[4] + "_" + "FOOD_WASTE_CO2E" then factors[i].(isActive := true) else factors[i])
            && HasKey(after, "MATERIAL_" + ids[4] + "_" + "FOOD_WASTE_CO2E") && HasKey(after, "MATERIAL_" + ids[1] + "_" + "PP_LED_HOURS")
            && HasKey(after, "MATERIAL_" + ids[2] + "_" + "CORRUGATED_KWH") && HasKey(after, "MATERIAL_" + ids[2] + "_" + "CORRUGATED_PHONE_CHARGES")
            && HasKey(after, "MATERIAL_" + ids[3] + "_" + "TETRA_FIBER") && HasKey(after, "MATERIAL_" + ids[3] + "_" + "TETRA_POLYMERS")
            && HasKey(after, "MATERIAL_" + ids[3] + "_" + "TETRA_ALUMINUM")
  {
    hide EnsureFactors, FactorKey;
    AddedFactors(factors, FACTORS, ids, newIds, i);
    SevenKeys(ids);
    var after := EnsureFactors(factors, FACTORS, ids, newIds);
    forall k | 0 <= k < 7 ensures Satisfied(after, FactorKey(ids[FACTORS[k].material], FACTORS[k].suffix), FACTORS[k].activate) {
      FactorsSatisfied(factors, FACTORS, ids, newIds, k);
    }
    if i < |factors| {
      ExistingFactorsKept(factors, FACTORS, ids, newIds, i);
      assert after[i] in after;
    }
  }

  predicate SpecIs(k: nat, ids: seq<string>, key: string, kg: real, activate: bool)
    requires k < 7 && |ids| == 5
  {
    FactorKey(ids[FACTORS[k].material], FACTORS[k].suffix) == key && FACTORS[k].referenceKg == kg && FACTORS[k].activate == activate
  }

  lemma SevenKeys(ids: seq<string>)
    requires |ids| == 5
    ensures SpecIs(0, ids, "MATERIAL_" + ids[4] + "_" + "FOOD_WASTE_CO2E", 1.388889, true)
    ensures SpecIs(1, ids, "MATERIAL_" + ids[1] + "_" + "PP_LED_HOURS", 0.000695, false)
    ensures SpecIs(2, ids, "MATERIAL_" + ids[2] + "_" + "CORRUGATED_KWH", 0.204918, false)
    ensures SpecIs(3, ids, "MATERIAL_" + ids[2] + "_" + "CORRUGATED_PHONE_CHARGES", 0.003584, false)
    ensures SpecIs(4, ids, "MATERIAL_" + ids[3] + "_" + "TETRA_FIBER", 1.428571, false)
    ensures SpecIs(5, ids, "MATERIAL_" + ids[3] + "_" + "TETRA_POLYMERS", 4.0, false)
    ensures SpecIs(6, ids, "MATERIAL_" + ids[3] + "_" + "TETRA_ALUMINUM", 20.0, false)
  {
  }

  /** Each weight is one over the rate of the revision, to six decimals. */
  lemma WeightsAreRounded(i: nat)
    requires i < 7
    ensures var rate := [0.72, 1438.0, 4.88, 279.0, 0.70, 0.25, 0.05][i];
            -0.0000005 <= FACTORS[i].referenceKg - 1.0 / rate <= 0.0000005
  {
  }
}
