/**
 * `DefaultUnitAndScaleFactory`: the registry of units and scales. It keeps every unit and scale under
 * its identifier, and every unit in a bucket for its dimension. The `create*` methods that take units
 * only look for an equal unit in the bucket first and return it instead of registering a new one;
 * the variants that take a name, symbol or identifier always register the new unit.
 *
 * Identifiers are parameters: the Java constructors without one draw a fresh identifier from code
 * that is not part of this model. The bucket key is the dimension itself, standing for its
 * `toString()`, which is assumed to tell dimensions apart.
 */
module Registry {
  import opened Wrappers
  import opened Dimensions
  import opened Units
  import opened Scales
  import opened SingularUnits
  import opened UnitMultiples

  /** What the identifier map holds: a unit or a scale. */
  datatype Entry = UnitEntry(unit: Unit) | ScaleEntry(scale: Scale)

  /** The identifier of a registered unit or scale. */
  function EntryId(e: Entry): Id
  {
    if e.UnitEntry? then e.unit.id else e.scale.id
  }

  /** The two maps of the factory: by identifier, and units by dimension. */
  datatype Registry = Registry(byId: map<Id, Entry>, byDimension: map<Dimension, seq<Unit>>)

  const Empty := Registry(map[], map[])

  /**
   * Why a registry call failed: an unknown identifier (`InsufficientDataException`), a failure while
   * filing a unit (a `NullPointerException` from its dimension), or a found unit of another class
   * than the one the create method casts to (`ClassCastException`).
   */
  datatype RegistryError = InsufficientData(id: Id) | Internal(failure: Failure) | ClassCast

  /** The registry after a call, and what the call returned or threw. */
  datatype Created<T> = Created(registry: Registry, result: Result<T, RegistryError>)

  /** The classes the deduplicating create methods cast their result to. */
  datatype Kind = SingularKind | MultipleKind | MultiplicationKind | DivisionKind | ExponentiationKind

  predicate HasKind(u: Unit, k: Kind)
  {
    match k
    case SingularKind => u.Singular?
    case MultipleKind => u.Multiple?
    case MultiplicationKind => u.Multiplication?
    case DivisionKind => u.Division?
    case ExponentiationKind => u.Exponentiation?
  }

  /**
   * The registry's invariant: every identifier maps to the unit or scale with that identifier, and
   * every bucket is non-empty and holds only units of its dimension.
   */
  ghost predicate Consistent(r: Registry)
  {
    && (forall id :: id in r.byId ==> EntryId(r.byId[id]) == id)
    && (forall d :: d in r.byDimension ==> |r.byDimension[d]| > 0)
    && (forall d, i :: d in r.byDimension && 0 <= i < |r.byDimension[d]| ==> Dim(r.byDimension[d][i]) == Some(d))
  }

  /** The empty factory is consistent. */
  lemma EmptyIsConsistent()
    ensures Consistent(Empty)
  {
  }

  /**
   * `getUnitOrScale`: the unit or scale registered under `id`; an unknown identifier is an
   * `InsufficientDataException`, never a made-up unit.
   */
  function GetUnitOrScale(r: Registry, id: Id): (res: Result<Entry, RegistryError>)
    ensures res.Success? <==> id in r.byId
    ensures res.Success? ==> res.value == r.byId[id]
    ensures res.Failure? ==> res.error == InsufficientData(id)
  {
    if id in r.byId then Success(r.byId[id]) else Failure(InsufficientData(id))
  }

  /** `getUnitsInDimension`: the bucket of dimension `d`, or an empty list when there is none. */
  function GetUnitsInDimension(r: Registry, d: Dimension): (s: seq<Unit>)
    ensures d in r.byDimension ==> s == r.byDimension[d]
    ensures d !in r.byDimension ==> s == []
  {
    if d in r.byDimension then r.byDimension[d] else []
  }

  /**
   * `after` is `before` with `u` registered: `u` is found under its identifier, every other identifier
   * finds what it found before, `u` is appended to the bucket of its dimension, and every other bucket
   * is unchanged.
   */
  ghost predicate Filed(before: Registry, after: Registry, u: Unit)
  {
    && Dim(u).Some?
    && GetUnitOrScale(after, u.id) == Success(UnitEntry(u))
    && (forall id :: id != u.id ==> GetUnitOrScale(after, id) == GetUnitOrScale(before, id))
    && GetUnitsInDimension(after, Dim(u).value) == GetUnitsInDimension(before, Dim(u).value) + [u]
    && (forall d :: d != Dim(u).value ==> GetUnitsInDimension(after, d) == GetUnitsInDimension(before, d))
  }

  /**
   * `addUnit`: file `u` under its identifier, replacing any earlier entry, and then append it to the
   * bucket of its dimension, creating the bucket when needed. When its dimension cannot be computed
   * the identifier entry has already been written and the buckets stay as they were.
   */
  function AddUnit(r: Registry, u: Unit): (c: Created<Unit>)
    ensures c.registry.byId == r.byId[u.id := UnitEntry(u)]
    ensures c.result.Success? <==> Dim(u).Some?
    ensures c.result.Success? ==> c.result.value == u && Filed(r, c.registry, u)
    ensures c.result.Failure? ==> c.result.error == Internal(NullReference) && c.registry.byDimension == r.byDimension
    ensures Consistent(r) ==> Consistent(c.registry)
  {
    var byId := r.byId[u.id := UnitEntry(u)];
    var dim := Dim(u);
    if dim.None? then Created(Registry(byId, r.byDimension), Failure(Internal(NullReference)))
    else Created(Registry(byId, r.byDimension[dim.value := GetUnitsInDimension(r, dim.value) + [u]]), Success(u))
  }

  /** After `addUnit`, the identifier finds the unit and every other identifier finds what it found before. */
  lemma LookupAfterAddUnit(r: Registry, u: Unit, id: Id)
    ensures GetUnitOrScale(AddUnit(r, u).registry, u.id) == Success(UnitEntry(u))
    ensures id != u.id ==> GetUnitOrScale(AddUnit(r, u).registry, id) == GetUnitOrScale(r, id)
  {
  }

  /**
   * After a successful `addUnit`, the unit's bucket is the old one with the unit appended, and every
   * other bucket is unchanged.
   */
  lemma BucketsAfterAddUnit(r: Registry, u: Unit, d: Dimension)
    requires Dim(u).Some?
    ensures GetUnitsInDimension(AddUnit(r, u).registry, Dim(u).value) == GetUnitsInDimension(r, Dim(u).value) + [u]
    ensures d != Dim(u).value ==> GetUnitsInDimension(AddUnit(r, u).registry, d) == GetUnitsInDimension(r, d)
  {
  }

  /** `addScale`: file the scale under its identifier; no bucket changes. */
  function AddScale(r: Registry, s: Scale): (c: Created<Scale>)
    ensures c.registry.byId == r.byId[s.id := ScaleEntry(s)]
    ensures c.registry.byDimension == r.byDimension
    ensures c.result == Success(s)
    ensures Consistent(r) ==> Consistent(c.registry)
  {
    Created(Registry(r.byId[s.id := ScaleEntry(s)], r.byDimension), Success(s))
  }

  /** A scale is found under its identifier and never appears in a bucket of units. */
  lemma ScalesStayOutOfBuckets(r: Registry, s: Scale, d: Dimension)
    ensures GetUnitOrScale(AddScale(r, s).registry, s.id) == Success(ScaleEntry(s))
    ensures GetUnitsInDimension(AddScale(r, s).registry, d) == GetUnitsInDimension(r, d)
  {
  }

  /**
   * The position of the first unit in `s` that `u` equals, with `u` as the receiver of `equals`
   * (`List.contains` and `List.indexOf`).
   */
  function IndexOfEqual(u: Unit, s: seq<Unit>): (r: Option<nat>)
    ensures r.Some? ==> r.value < |s| && Equal(u, s[r.value])
    ensures r.Some? ==> forall j :: 0 <= j < r.value ==> !Equal(u, s[j])
    ensures r.None? <==> forall j :: 0 <= j < |s| ==> !Equal(u, s[j])
  {
    if |s| == 0 then None
    else if Equal(u, s[0]) then Some(0)
    else
      var rest := IndexOfEqual(u, s[1..]);
      if rest.None? then None else Some(rest.value + 1)
  }

  /** Appending a unit that `u` equals to a list without one makes that unit the first found. */
  lemma {:induction false} IndexOfEqualAfterAppend(u: Unit, s: seq<Unit>, v: Unit)
    requires IndexOfEqual(u, s).None? && Equal(u, v)
    ensures IndexOfEqual(u, s + [v]) == Some(|s|)
    decreases |s|
  {
    if |s| == 0 {
      assert s + [v] == [v];
    } else {
      assert (s + [v])[0] == s[0];
      assert (s + [v])[1..] == s[1..] + [v];
      IndexOfEqualAfterAppend(u, s[1..], v);
    }
  }

  /** An equal unit of the same dimension is already filed. */
  predicate Holds(r: Registry, u: Unit)
  {
    Dim(u).Some? && IndexOfEqual(u, GetUnitsInDimension(r, Dim(u).value)).Some?
  }

  /** The first unit filed in `u`'s bucket that `u` equals. */
  function Existing(r: Registry, u: Unit): Unit
    requires Holds(r, u)
  {
    GetUnitsInDimension(r, Dim(u).value)[IndexOfEqual(u, GetUnitsInDimension(r, Dim(u).value)).value]
  }

  /**
   * `checkExistingAndAddUnit`: when an equal unit is already filed in `u`'s bucket, return the first
   * one and change nothing; otherwise register `u` as `addUnit` does and return it. Computing the
   * dimension of `u` comes first, so its failure changes nothing.
   */
  function CheckExistingAndAddUnit(r: Registry, u: Unit): (c: Created<Unit>)
    ensures Dim(u).None? ==> c == Created(r, Failure(Internal(NullReference)))
    ensures Holds(r, u) ==> c == Created(r, Success(Existing(r, u)))
    ensures Dim(u).Some? && !Holds(r, u) ==> c == AddUnit(r, u) && c.result == Success(u)
    ensures c.result.Success? ==> Equal(u, c.result.value) && c.result.value in GetUnitsInDimension(c.registry, Dim(u).value)
    ensures Consistent(r) ==> Consistent(c.registry)
  {
    var dim := Dim(u);
    if dim.None? then Created(r, Failure(Internal(NullReference)))
    else
      var bucket := GetUnitsInDimension(r, dim.value);
      var index := IndexOfEqual(u, bucket);
      if index.Some? then Created(r, Success(bucket[index.value]))
      else
        EqualReflexive(u);
        AddUnit(r, u)
  }

  /**
   * `checkExistingAndAddUnit` is idempotent: asking again with the same unit returns what the first
   * call returned and registers nothing more.
   */
  lemma CheckExistingIdempotent(r: Registry, u: Unit)
    ensures var first := CheckExistingAndAddUnit(r, u);
            CheckExistingAndAddUnit(first.registry, u) == first
  {
    if Dim(u).Some? && !Holds(r, u) {
      EqualReflexive(u);
      IndexOfEqualAfterAppend(u, GetUnitsInDimension(r, Dim(u).value), u);
    }
  }

  /** A unit with another identifier and otherwise the same structure. */
  function Renamed(u: Unit, id: Id): (v: Unit)
    ensures v.id == id && Dim(v) == Dim(u)
  {
    match u
    case Singular(_, s, d, f, i) => Singular(id, s, d, f, i)
    case Multiple(_, s, b, f) => Multiple(id, s, b, f)
    case Multiplication(_, s, a, b) => Multiplication(id, s, a, b)
    case Division(_, s, n, d) => Division(id, s, n, d)
    case Exponentiation(_, s, x, n) => Exponentiation(id, s, x, n)
  }

  /** Against a unit of another identifier, equality does not look at the receiver's identifier. */
  lemma EqualIgnoresOwnId(u: Unit, id: Id, y: Unit)
    requires y.id != u.id && y.id != id
    ensures Equal(Renamed(u, id), y) == Equal(u, y)
  {
  }

  /** No filed unit carries the identifier `id`. */
  ghost predicate FreshId(r: Registry, id: Id)
  {
    forall d, i :: d in r.byDimension && 0 <= i < |r.byDimension[d]| ==> r.byDimension[d][i].id != id
  }

  /** Renaming the receiver to another fresh identifier finds the same unit at the same place. */
  lemma IndexOfEqualIgnoresFreshId(u: Unit, id: Id, s: seq<Unit>)
    requires forall i :: 0 <= i < |s| ==> s[i].id != u.id && s[i].id != id
    ensures IndexOfEqual(Renamed(u, id), s) == IndexOfEqual(u, s)
  {
    if |s| > 0 {
      EqualIgnoresOwnId(u, id, s[0]);
      IndexOfEqualIgnoresFreshId(u, id, s[1..]);
    }
  }

  /**
   * Structural deduplication: building a unit a second time under a new identifier, where the unit
   * equals its renamed self (every compound and multiple does), returns the instance filed the first
   * time and registers nothing more.
   */
  lemma SecondCreationReturnsFirst(r: Registry, u: Unit, id: Id)
    requires Dim(u).Some? && FreshId(r, u.id) && FreshId(r, id) && id != u.id
    requires Equal(Renamed(u, id), u)
    ensures var first := CheckExistingAndAddUnit(r, u);
            CheckExistingAndAddUnit(first.registry, Renamed(u, id)) == first
  {
    var bucket := GetUnitsInDimension(r, Dim(u).value);
    assert forall i :: 0 <= i < |bucket| ==> bucket[i].id != u.id && bucket[i].id != id;
    IndexOfEqualIgnoresFreshId(u, id, bucket);
    if !Holds(r, u) {
      IndexOfEqualAfterAppend(Renamed(u, id), bucket, u);
    }
  }

  /** A deduplicating create method: `checkExistingAndAddUnit` followed by the method's cast. */
  function Deduplicated(r: Registry, u: Unit, k: Kind): (c: Created<Unit>)
    ensures c.registry == CheckExistingAndAddUnit(r, u).registry
    ensures c.result.Success? <==> CheckExistingAndAddUnit(r, u).result.Success? && HasKind(CheckExistingAndAddUnit(r, u).result.value, k)
    ensures c.result.Success? ==> c.result == CheckExistingAndAddUnit(r, u).result
  {
    var c := CheckExistingAndAddUnit(r, u);
    if c.result.Success? && !HasKind(c.result.value, k) then Created(c.registry, Failure(ClassCast)) else c
  }

  /** A registering create method: `addUnit` and return the new unit. */
  function Registered(r: Registry, u: Unit): (c: Created<Unit>)
    ensures GetUnitOrScale(c.registry, u.id) == Success(UnitEntry(u))
    ensures c.result.Success? <==> Dim(u).Some?
    ensures c.result.Success? ==> c.result.value == u && Filed(r, c.registry, u)
    ensures c.result.Failure? ==> c.result.error == Internal(NullReference) && c.registry.byDimension == r.byDimension
  {
    AddUnit(r, u)
  }

  /**
   * Registering always grows the bucket, even when an equal unit is filed already, where
   * deduplicating leaves the registry as it was.
   */
  lemma DeduplicatingVersusRegistering(r: Registry, u: Unit, k: Kind)
    requires Holds(r, u)
    ensures Deduplicated(r, u, k).registry == r
    ensures |GetUnitsInDimension(Registered(r, u).registry, Dim(u).value)| == |GetUnitsInDimension(r, Dim(u).value)| + 1
  {
  }

  // Base units.

  /** `createBaseUnit(dimension)`, deduplicating. */
  function CreateBaseUnit(r: Registry, id: Id, dimension: string): (c: Created<Unit>)
    ensures c.result.Success? ==> c.result.value.Singular? && Equal(NewBaseUnit(id, None, dimension), c.result.value)
    ensures Holds(r, NewBaseUnit(id, None, dimension)) ==> c.registry == r
    ensures Holds(r, NewBaseUnit(id, None, dimension)) && HasKind(Existing(r, NewBaseUnit(id, None, dimension)), SingularKind) ==> c.result == Success(Existing(r, NewBaseUnit(id, None, dimension)))
    ensures Holds(r, NewBaseUnit(id, None, dimension)) && !HasKind(Existing(r, NewBaseUnit(id, None, dimension)), SingularKind) ==> c.result == Failure(ClassCast)
    ensures !Holds(r, NewBaseUnit(id, None, dimension)) ==>
      c.result == Success(NewBaseUnit(id, None, dimension)) && Filed(r, c.registry, NewBaseUnit(id, None, dimension))
  {
    Deduplicated(r, NewBaseUnit(id, None, dimension), SingularKind)
  }

  /** `createBaseUnit(name, symbol, dimension)` and `createBaseUnit(identifier, name, symbol, dimension)`. */
  function CreateNamedBaseUnit(r: Registry, id: Id, symbol: Option<string>, dimension: string): (c: Created<Unit>)
    ensures GetUnitOrScale(c.registry, id) == Success(UnitEntry(NewBaseUnit(id, symbol, dimension)))
    ensures c.result == Success(NewBaseUnit(id, symbol, dimension))
    ensures Filed(r, c.registry, NewBaseUnit(id, symbol, dimension))
  {
    Registered(r, NewBaseUnit(id, symbol, dimension))
  }

  // Singular units.

  /** `createSingularUnit()`, `createSingularUnit(definitionUnit)` and `createSingularUnit(definitionUnit, factor)`, deduplicating. */
  function CreateSingularUnit(r: Registry, id: Id, definition: Option<Unit>, factor: Option<real>): (c: Created<Unit>)
    ensures c.result.Success? ==> c.result.value.Singular? && Equal(NewSingularUnit(id, None, definition, factor), c.result.value)
    ensures Holds(r, NewSingularUnit(id, None, definition, factor)) ==> c.registry == r
    ensures Holds(r, NewSingularUnit(id, None, definition, factor)) && HasKind(Existing(r, NewSingularUnit(id, None, definition, factor)), SingularKind) ==> c.result == Success(Existing(r, NewSingularUnit(id, None, definition, factor)))
    ensures Holds(r, NewSingularUnit(id, None, definition, factor)) && !HasKind(Existing(r, NewSingularUnit(id, None, definition, factor)), SingularKind) ==> c.result == Failure(ClassCast)
    ensures Dim(NewSingularUnit(id, None, definition, factor)).None? ==> c == Created(r, Failure(Internal(NullReference)))
    ensures Dim(NewSingularUnit(id, None, definition, factor)).Some? && !Holds(r, NewSingularUnit(id, None, definition, factor))
      ==> c.result == Success(NewSingularUnit(id, None, definition, factor)) && Filed(r, c.registry, NewSingularUnit(id, None, definition, factor))
  {
    Deduplicated(r, NewSingularUnit(id, None, definition, factor), SingularKind)
  }

  /** The six `createSingularUnit` variants with a name and symbol, and optionally an identifier. */
  function CreateNamedSingularUnit(r: Registry, id: Id, symbol: Option<string>, definition: Option<Unit>, factor: Option<real>): (c: Created<Unit>)
    ensures GetUnitOrScale(c.registry, id) == Success(UnitEntry(NewSingularUnit(id, symbol, definition, factor)))
    ensures c.result.Success? <==> definition.None? || Dim(definition.value).Some?
    ensures c.result.Success? ==> c.result.value == NewSingularUnit(id, symbol, definition, factor)
    ensures c.result.Success? ==> Filed(r, c.registry, NewSingularUnit(id, symbol, definition, factor))
    ensures c.result.Failure? ==> c.registry.byDimension == r.byDimension
  {
    Registered(r, NewSingularUnit(id, symbol, definition, factor))
  }

  // Unit multiples.

  /**
   * `createUnitMultiple(unit, factor)` as written: it files the new multiple unless an equal one is
   * filed, but returns the new multiple either way, discarding the one found.
   */
  function CreateUnitMultiple(r: Registry, id: Id, unit: Option<Unit>, factor: real, render: real -> string): (c: Created<Unit>)
    ensures c.registry == CheckExistingAndAddUnit(r, NewUnitMultiple(id, None, unit, factor, render)).registry
    ensures c.result.Success? ==> c.result.value == NewUnitMultiple(id, None, unit, factor, render)
    ensures c.result.Success? ==> unit.Some? && Dim(unit.value).Some?
    ensures unit.None? ==> c == Created(r, Failure(Internal(NullReference)))
    ensures Dim(NewUnitMultiple(id, None, unit, factor, render)).None? ==> c == Created(r, Failure(Internal(NullReference)))
    ensures unit.Some? && Dim(unit.value).Some? && !Holds(r, NewUnitMultiple(id, None, unit, factor, render))
      ==> c.result == Success(NewUnitMultiple(id, None, unit, factor, render)) && Filed(r, c.registry, NewUnitMultiple(id, None, unit, factor, render))
    ensures Holds(r, NewUnitMultiple(id, None, unit, factor, render)) && HasKind(Existing(r, NewUnitMultiple(id, None, unit, factor, render)), MultipleKind)
      ==> c == Created(r, Success(NewUnitMultiple(id, None, unit, factor, render)))
    ensures Holds(r, NewUnitMultiple(id, None, unit, factor, render)) && !HasKind(Existing(r, NewUnitMultiple(id, None, unit, factor, render)), MultipleKind)
      ==> c == Created(r, Failure(ClassCast))
  {
    var built := NewUnitMultiple(id, None, unit, factor, render);
    var c := Deduplicated(r, built, MultipleKind);
    if c.result.Success? then Created(c.registry, Success(built)) else c
  }

  /**
   * The discrepancy: when an equal multiple is filed, the multiple returned is not the filed one;
   * with a fresh identifier, the factory does not know the identifier of the unit it returned.
   */
  lemma UnitMultipleDuplicateIsUnregistered(r: Registry, id: Id, unit: Option<Unit>, factor: real, render: real -> string)
    requires Holds(r, NewUnitMultiple(id, None, unit, factor, render)) && id !in r.byId
    requires Existing(r, NewUnitMultiple(id, None, unit, factor, render)).Multiple?
    ensures CreateUnitMultiple(r, id, unit, factor, render).result.Success?
    ensures GetUnitOrScale(CreateUnitMultiple(r, id, unit, factor, render).registry, CreateUnitMultiple(r, id, unit, factor, render).result.value.id).Failure?
  {
  }

  /**
   * `createUnitMultiple(unit, factor)` as evidently intended, returning the filed multiple like every
   * other deduplicating create method.
   */
  function CreateUnitMultipleFixed(r: Registry, id: Id, unit: Option<Unit>, factor: real, render: real -> string): (c: Created<Unit>)
    ensures c.result.Success? ==> c.result.value.Multiple? && Equal(NewUnitMultiple(id, None, unit, factor, render), c.result.value)
    ensures c.result.Success? ==>
      unit.Some? && Dim(unit.value).Some? && c.result.value in GetUnitsInDimension(c.registry, Dim(unit.value).value)
    ensures Holds(r, NewUnitMultiple(id, None, unit, factor, render)) ==> c.registry == r
    ensures unit.Some? && Dim(unit.value).Some? && !Holds(r, NewUnitMultiple(id, None, unit, factor, render))
      ==> c.result == Success(NewUnitMultiple(id, None, unit, factor, render)) && Filed(r, c.registry, NewUnitMultiple(id, None, unit, factor, render))
    ensures Holds(r, NewUnitMultiple(id, None, unit, factor, render)) && HasKind(Existing(r, NewUnitMultiple(id, None, unit, factor, render)), MultipleKind)
      ==> c.result == Success(Existing(r, NewUnitMultiple(id, None, unit, factor, render)))
    ensures Holds(r, NewUnitMultiple(id, None, unit, factor, render)) && !HasKind(Existing(r, NewUnitMultiple(id, None, unit, factor, render)), MultipleKind)
      ==> c.result == Failure(ClassCast)
    ensures Dim(NewUnitMultiple(id, None, unit, factor, render)).None? ==> c == Created(r, Failure(Internal(NullReference)))
  {
    Deduplicated(r, NewUnitMultiple(id, None, unit, factor, render), MultipleKind)
  }

  /** With the corrected method, the multiple returned is always the one filed in the registry. */
  lemma UnitMultipleFixedReturnsFiled(r: Registry, id: Id, unit: Option<Unit>, factor: real, render: real -> string)
    requires Holds(r, NewUnitMultiple(id, None, unit, factor, render))
    requires Existing(r, NewUnitMultiple(id, None, unit, factor, render)).Multiple?
    ensures CreateUnitMultipleFixed(r, id, unit, factor, render).result.Success?
    ensures CreateUnitMultipleFixed(r, id, unit, factor, render).result.value == Existing(r, NewUnitMultiple(id, None, unit, factor, render))
  {
  }

  /** `createUnitMultiple(name, unit, factor)` and `createUnitMultiple(name, symbol, unit, factor)`. */
  function CreateNamedUnitMultiple(r: Registry, id: Id, symbol: Option<string>, unit: Option<Unit>, factor: real, render: real -> string): (c: Created<Unit>)
    ensures GetUnitOrScale(c.registry, id) == Success(UnitEntry(NewUnitMultiple(id, symbol, unit, factor, render)))
    ensures c.result.Success? <==> unit.Some? && Dim(unit.value).Some?
    ensures c.result.Success? ==> c.result.value == NewUnitMultiple(id, symbol, unit, factor, render)
    ensures c.result.Success? ==> Filed(r, c.registry, NewUnitMultiple(id, symbol, unit, factor, render))
    ensures c.result.Failure? ==> c.registry.byDimension == r.byDimension
  {
    Registered(r, NewUnitMultiple(id, symbol, unit, factor, render))
  }

  /** `createUnitMultiple(identifier, name, symbol, unit, factor)`. */
  function CreateIdentifiedUnitMultiple(r: Registry, id: Id, symbol: Option<string>, unit: Option<Unit>, factor: real): (c: Created<Unit>)
    ensures GetUnitOrScale(c.registry, id) == Success(UnitEntry(NewIdentifiedUnitMultiple(id, symbol, unit, factor)))
    ensures c.result.Success? <==> unit.Some? && Dim(unit.value).Some?
    ensures c.result.Success? ==> c.result.value == NewIdentifiedUnitMultiple(id, symbol, unit, factor)
    ensures c.result.Success? ==> Filed(r, c.registry, NewIdentifiedUnitMultiple(id, symbol, unit, factor))
    ensures c.result.Failure? ==> c.registry.byDimension == r.byDimension
  {
    Registered(r, NewIdentifiedUnitMultiple(id, symbol, unit, factor))
  }

  // Products, quotients and powers. `UnitMultiplicationImpl`, `UnitDivisionImpl` and
  // `UnitExponentiationImpl` are not part of this model; built from units only they are taken to
  // carry no symbol.

  /** `createUnitMultiplication(unit1, unit2)`, deduplicating. */
  function CreateUnitMultiplication(r: Registry, id: Id, a: Unit, b: Unit): (c: Created<Unit>)
    ensures c.result.Success? ==> c.result.value.Multiplication? && Equal(Multiplication(id, None, a, b), c.result.value)
    ensures Holds(r, Multiplication(id, None, a, b)) ==> c.registry == r
    ensures Holds(r, Multiplication(id, None, a, b)) && HasKind(Existing(r, Multiplication(id, None, a, b)), MultiplicationKind) ==> c.result == Success(Existing(r, Multiplication(id, None, a, b)))
    ensures Holds(r, Multiplication(id, None, a, b)) && !HasKind(Existing(r, Multiplication(id, None, a, b)), MultiplicationKind) ==> c.result == Failure(ClassCast)
    ensures Dim(Multiplication(id, None, a, b)).None? ==> c == Created(r, Failure(Internal(NullReference)))
    ensures Dim(a).Some? && Dim(b).Some? && !Holds(r, Multiplication(id, None, a, b))
      ==> c.result == Success(Multiplication(id, None, a, b)) && Filed(r, c.registry, Multiplication(id, None, a, b))
  {
    Deduplicated(r, Multiplication(id, None, a, b), MultiplicationKind)
  }

  /** `createUnitMultiplication` with a name and symbol, and optionally an identifier. */
  function CreateNamedUnitMultiplication(r: Registry, id: Id, symbol: Option<string>, a: Unit, b: Unit): (c: Created<Unit>)
    ensures GetUnitOrScale(c.registry, id) == Success(UnitEntry(Multiplication(id, symbol, a, b)))
    ensures c.result.Success? <==> Dim(a).Some? && Dim(b).Some?
    ensures c.result.Success? ==> c.result.value == Multiplication(id, symbol, a, b)
    ensures c.result.Success? ==> Filed(r, c.registry, Multiplication(id, symbol, a, b))
    ensures c.result.Failure? ==> c.registry.byDimension == r.byDimension
  {
    Registered(r, Multiplication(id, symbol, a, b))
  }

  /** `createUnitDivision(numerator, denominator)`, deduplicating. */
  function CreateUnitDivision(r: Registry, id: Id, n: Unit, d: Unit): (c: Created<Unit>)
    ensures c.result.Success? ==> c.result.value.Division? && Equal(Division(id, None, n, d), c.result.value)
    ensures Holds(r, Division(id, None, n, d)) ==> c.registry == r
    ensures Holds(r, Division(id, None, n, d)) && HasKind(Existing(r, Division(id, None, n, d)), DivisionKind) ==> c.result == Success(Existing(r, Division(id, None, n, d)))
    ensures Holds(r, Division(id, None, n, d)) && !HasKind(Existing(r, Division(id, None, n, d)), DivisionKind) ==> c.result == Failure(ClassCast)
    ensures Dim(Division(id, None, n, d)).None? ==> c == Created(r, Failure(Internal(NullReference)))
    ensures Dim(n).Some? && Dim(d).Some? && !Holds(r, Division(id, None, n, d))
      ==> c.result == Success(Division(id, None, n, d)) && Filed(r, c.registry, Division(id, None, n, d))
  {
    Deduplicated(r, Division(id, None, n, d), DivisionKind)
  }

  /** `createUnitDivision` with a name and symbol, and optionally an identifier. */
  function CreateNamedUnitDivision(r: Registry, id: Id, symbol: Option<string>, n: Unit, d: Unit): (c: Created<Unit>)
    ensures GetUnitOrScale(c.registry, id) == Success(UnitEntry(Division(id, symbol, n, d)))
    ensures c.result.Success? <==> Dim(n).Some? && Dim(d).Some?
    ensures c.result.Success? ==> c.result.value == Division(id, symbol, n, d)
    ensures c.result.Success? ==> Filed(r, c.registry, Division(id, symbol, n, d))
    ensures c.result.Failure? ==> c.registry.byDimension == r.byDimension
  {
    Registered(r, Division(id, symbol, n, d))
  }

  /**
   * Creating the same quotient twice from units only, under two fresh identifiers, returns the
   * quotient filed the first time and registers nothing the second time.
   */
  lemma DivisionCreatedOnce(r: Registry, id1: Id, id2: Id, n: Unit, d: Unit)
    requires Dim(n).Some? && Dim(d).Some? && id1 != id2 && FreshId(r, id1) && FreshId(r, id2)
    ensures CreateUnitDivision(CreateUnitDivision(r, id1, n, d).registry, id2, n, d) == CreateUnitDivision(r, id1, n, d)
  {
    EqualReflexive(n);
    EqualReflexive(d);
    SecondCreationReturnsFirst(r, Division(id1, None, n, d), id2);
  }

  /** `createUnitExponentiation(base, exponent)`, deduplicating. */
  function CreateUnitExponentiation(r: Registry, id: Id, x: Unit, n: int): (c: Created<Unit>)
    ensures c.result.Success? ==> c.result.value.Exponentiation? && Equal(Exponentiation(id, None, x, n), c.result.value)
    ensures Holds(r, Exponentiation(id, None, x, n)) ==> c.registry == r
    ensures Holds(r, Exponentiation(id, None, x, n)) && HasKind(Existing(r, Exponentiation(id, None, x, n)), ExponentiationKind) ==> c.result == Success(Existing(r, Exponentiation(id, None, x, n)))
    ensures Holds(r, Exponentiation(id, None, x, n)) && !HasKind(Existing(r, Exponentiation(id, None, x, n)), ExponentiationKind) ==> c.result == Failure(ClassCast)
    ensures Dim(Exponentiation(id, None, x, n)).None? ==> c == Created(r, Failure(Internal(NullReference)))
    ensures Dim(x).Some? && !Holds(r, Exponentiation(id, None, x, n))
      ==> c.result == Success(Exponentiation(id, None, x, n)) && Filed(r, c.registry, Exponentiation(id, None, x, n))
  {
    Deduplicated(r, Exponentiation(id, None, x, n), ExponentiationKind)
  }

  /** `createUnitExponentiation` with a name and symbol, and optionally an identifier. */
  function CreateNamedUnitExponentiation(r: Registry, id: Id, symbol: Option<string>, x: Unit, n: int): (c: Created<Unit>)
    ensures GetUnitOrScale(c.registry, id) == Success(UnitEntry(Exponentiation(id, symbol, x, n)))
    ensures c.result.Success? <==> Dim(x).Some?
    ensures c.result.Success? ==> c.result.value == Exponentiation(id, symbol, x, n)
    ensures c.result.Success? ==> Filed(r, c.registry, Exponentiation(id, symbol, x, n))
    ensures c.result.Failure? ==> c.registry.byDimension == r.byDimension
  {
    Registered(r, Exponentiation(id, symbol, x, n))
  }

  // Scales.

  /** `createScale(unit)`, `createScale(name, symbol, unit)` and `createScale(identifier, name, symbol, unit)`. */
  function CreateScale(r: Registry, id: Id, symbol: Option<string>, unit: Option<Unit>): (c: Created<Scale>)
    ensures GetUnitOrScale(c.registry, id) == Success(ScaleEntry(NewScale(id, symbol, unit)))
    ensures c.registry.byDimension == r.byDimension
    ensures c.result == Success(NewScale(id, symbol, unit))
  {
    AddScale(r, NewScale(id, symbol, unit))
  }

  /** The three `createScale` variants with a definition scale, an offset and a factor. */
  function CreateDefinedScale(r: Registry, id: Id, symbol: Option<string>, definition: Option<Scale>, offset: real, factor: real, unit: Option<Unit>): (c: Created<Scale>)
    ensures GetUnitOrScale(c.registry, id) == Success(ScaleEntry(NewDefinedScale(id, symbol, definition, offset, factor, unit)))
    ensures c.registry.byDimension == r.byDimension
    ensures c.result == Success(NewDefinedScale(id, symbol, definition, offset, factor, unit))
  {
    AddScale(r, NewDefinedScale(id, symbol, definition, offset, factor, unit))
  }

  /** Creating a scale twice registers it twice: no scale is ever deduplicated. */
  lemma ScalesAreNeverDeduplicated(r: Registry, id1: Id, id2: Id, symbol: Option<string>, unit: Option<Unit>)
    requires id1 != id2
    ensures var first := CreateScale(r, id1, symbol, unit);
            var second := CreateScale(first.registry, id2, symbol, unit);
            && GetUnitOrScale(second.registry, id1) == Success(ScaleEntry(NewScale(id1, symbol, unit)))
            && GetUnitOrScale(second.registry, id2) == Success(ScaleEntry(NewScale(id2, symbol, unit)))
  {
  }
}
