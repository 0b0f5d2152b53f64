/**
 * The rentals controller over the rentals table.
 *
 * The table is an object whose rows (a map from primary key to columns)
 * and next primary key the actions update in place. Each action takes the
 * request's attributes already unwrapped from the JSON:API document and
 * returns the record it produced or the error it reports.
 */
module RentalsController {
  import opened Wrappers
  import opened AttributeTypes
  import opened Rental

  /** What a failed action reports. */
  datatype Error =
    | NotFound                            // `find` raised: "Record not found"
    | Invalid(violations: seq<Violation>) // `save` returned false

  const RecordNotFound := "Record not found"

  /** The `title` of each entry of the response's `errors` array. */
  function ErrorTitles(e: Error): seq<string> {
    match e
    case NotFound => [RecordNotFound]
    case Invalid(vs) => seq(|vs|, i requires 0 <= i < |vs| => vs[i].message)
  }

  /**
   * `rental_params`: keeps the seven permitted attribute keys whose values
   * are scalars and silently drops every other key.
   */
  function RentalParams(params: map<string, Param>): (p: map<Field, Param>)
    ensures forall f :: f in p <==> FieldName(f) in params && IsScalar(params[FieldName(f)])
    ensures forall f :: f in p ==> p[f] == params[FieldName(f)] && IsScalar(p[f])
  {
    map f | f in AllFields && FieldName(f) in params && IsScalar(params[FieldName(f)]) :: params[FieldName(f)]
  }

  /**
   * A key that names no permitted attribute has no effect on what the
   * actions see: the request is read the same whether it carries that key,
   * with any value, or not.
   */
  lemma UnpermittedKeyIgnored(params: map<string, Param>, key: string, value: Param)
    requires FieldNamed(key) == None
    ensures RentalParams(params[key := value]) == RentalParams(params - {key})
  {
    var withKey := RentalParams(params[key := value]);
    var withoutKey := RentalParams(params - {key});
    forall f
      ensures (f in withKey <==> f in withoutKey) && (f in withKey ==> withKey[f] == withoutKey[f])
    {
      var name := FieldName(f);
      assert name != key;
      assert (name in params[key := value]) == (name in params - {key});
      if name in params - {key} {
        assert params[key := value][name] == (params - {key})[name];
      }
    }
    assert withKey.Keys == withoutKey.Keys;
  }

  /** The primary keys of `rows` in the range [lo, hi). */
  function IdsBetween(rows: map<int, Attributes>, lo: int, hi: int): set<int> {
    set id | id in rows && lo <= id < hi
  }

  /**
   * `Rental.all` over the keys in [lo, hi): every row there, once each, in
   * ascending primary-key order (which is creation order, since keys are
   * handed out increasing and never reused).
   */
  function Listing(rows: map<int, Attributes>, lo: int, hi: int): (rs: seq<Rental>)
    ensures forall r :: r in rs <==> lo <= r.id < hi && r.id in rows && rows[r.id] == r.attrs
    ensures forall i, j :: 0 <= i < j < |rs| ==> rs[i].id < rs[j].id
    ensures |rs| == |IdsBetween(rows, lo, hi)|
    decreases hi - lo
  {
    if lo >= hi then
      assert IdsBetween(rows, lo, hi) == {};
      []
    else
      var rest := Listing(rows, lo + 1, hi);
      if lo in rows then
        assert IdsBetween(rows, lo, hi) == {lo} + IdsBetween(rows, lo + 1, hi);
        [Rental(lo, rows[lo])] + rest
      else
        assert IdsBetween(rows, lo, hi) == IdsBetween(rows, lo + 1, hi);
        rest
  }

  /** The rentals table. */
  class RentalTable {
    var rows: map<int, Attributes>
    var nextId: int

    /**
     * Keys are positive and below the next key to hand out, and the rows
     * satisfy every validation against each other.
     */
    ghost predicate Valid()
      reads this
    {
      && 1 <= nextId
      && (forall id :: id in rows ==> 1 <= id < nextId)
      && TableInvariant(rows)
    }

    /** An empty table whose first key will be 1. */
    constructor ()
      ensures Valid()
      ensures rows == map[] && nextId == 1
    {
      rows := map[];
      nextId := 1;
    }

    /** `index`: every stored rental and only those, in creation order. */
    method Index() returns (rs: seq<Rental>)
      requires Valid()
      ensures |rs| == |rows|
      ensures forall r :: r in rs <==> r.id in rows && rows[r.id] == r.attrs
      ensures forall i, j :: 0 <= i < j < |rs| ==> rs[i].id < rs[j].id
    {
      rs := Listing(rows, 1, nextId);
      assert IdsBetween(rows, 1, nextId) == rows.Keys;
    }

    /** `new`: an unsaved record with no attributes, the same record `create` builds from an empty request. */
    method New() returns (a: Attributes)
      ensures forall f :: IsBlank(a, f)
      ensures a == Build(RentalParams(map[]))
    {
      a := NoAttributes;
      assert RentalParams(map[]) == map[];
      AssignNothing(a);
    }

    /** `show`: the rental with that key, or NotFound. */
    method Show(id: int) returns (r: Result<Rental, Error>)
      ensures id in rows ==> r == Ok(Rental(id, rows[id]))
      ensures id !in rows ==> r == Err(NotFound)
    {
      if id in rows {
        r := Ok(Rental(id, rows[id]));
      } else {
        r := Err(NotFound);
      }
    }

    /**
     * `create`: builds a record from the permitted parameters and, if it
     * passes every validation, stores it under a fresh key; otherwise the
     * table is untouched and the violations are reported.
     */
    method Create(params: map<string, Param>) returns (r: Result<Rental, Error>)
      requires Valid()
      modifies this
      ensures Valid()
      ensures var a := Build(RentalParams(params));
        var errs := Validate(old(rows), a, None);
        && (errs == [] ==>
              && r == Ok(Rental(old(nextId), a))
              && old(nextId) !in old(rows)
              && rows == old(rows)[old(nextId) := a]
              && nextId == old(nextId) + 1)
        && (errs != [] ==> r == Err(Invalid(errs)) && rows == old(rows) && nextId == old(nextId))
      ensures r.Ok? ==> |rows| == |old(rows)| + 1
      ensures r.Err? ==> r.error.Invalid? && |rows| == |old(rows)|
    {
      var a := Build(RentalParams(params));
      var errs := Validate(rows, a, None);
      if errs != [] {
        r := Err(Invalid(errs));
        return;
      }
      assert nextId !in rows;
      ExcludingSelfOnlyRemovesConflicts(rows, a, nextId);
      ValidatedWriteKeepsInvariant(rows, nextId, a);
      assert |rows[nextId := a]| == |rows| + 1;
      r := Ok(Rental(nextId, a));
      rows := rows[nextId := a];
      nextId := nextId + 1;
    }

    /**
     * `update`: finds the rental (NotFound if absent), assigns the permitted
     * parameters over it and, if the result passes every validation with
     * its own row left out of the uniqueness check, stores it in place.
     */
    method Update(id: int, params: map<string, Param>) returns (r: Result<Rental, Error>)
      requires Valid()
      modifies this
      ensures Valid()
      ensures nextId == old(nextId) && rows.Keys == old(rows).Keys
      ensures id !in old(rows) ==> r == Err(NotFound) && rows == old(rows)
      ensures id in old(rows) ==>
        var merged := Assign(old(rows)[id], RentalParams(params));
        var errs := Validate(old(rows), merged, Some(id));
        && (errs == [] ==> r == Ok(Rental(id, merged)) && rows == old(rows)[id := merged])
        && (errs != [] ==> r == Err(Invalid(errs)) && rows == old(rows))
      ensures r.Ok? ==> forall f :: f !in RentalParams(params) ==> ValueOf(rows[id], f) == ValueOf(old(rows)[id], f)
      ensures forall k :: k in old(rows) && k != id ==> rows[k] == old(rows)[k]
    {
      if id !in rows {
        r := Err(NotFound);
        return;
      }
      var merged := Assign(rows[id], RentalParams(params));
      var errs := Validate(rows, merged, Some(id));
      if errs != [] {
        r := Err(Invalid(errs));
        return;
      }
      ValidatedWriteKeepsInvariant(rows, id, merged);
      rows := rows[id := merged];
      r := Ok(Rental(id, merged));
    }

    /** `destroy`: finds the rental (NotFound if absent) and removes exactly that row. */
    method Destroy(id: int) returns (r: Result<Rental, Error>)
      requires Valid()
      modifies this
      ensures Valid()
      ensures nextId == old(nextId)
      ensures id !in old(rows) ==> r == Err(NotFound) && rows == old(rows)
      ensures id in old(rows) ==>
        && r == Ok(Rental(id, old(rows)[id]))
        && rows == old(rows) - {id}
        && |rows| == |old(rows)| - 1
      ensures id !in rows
    {
      if id !in rows {
        r := Err(NotFound);
        return;
      }
      r := Ok(Rental(id, rows[id]));
      RemovalKeepsInvariant(rows, id);
      rows := rows - {id};
    }
  }

  // ---------------------------------------------------------------------------
  // Requests as the request specs make them

  /** The factory's image link and description, written in pieces so that their characters stay cheap to reason about. */
  const FactoryImage := "https://upload.wikimedia.org/" + "wikipedia/commons/c/cb/" + "Crane_estate_(5).jpg"
  const FactoryDescription := "This grand old mansion sits " + "on over 100 acres of rolling " + "hills and dense redwood forests."

  /** The attributes the rental factory supplies. */
  function FactoryParams(): map<string, Param> {
    FullParams(
      "Grand Old Mansion", "Veruca Salt", "San Francisco", "Estate",
      FactoryImage, 15,
      FactoryDescription)
  }

  /** The factory rental as stored. */
  const Factory := Attributes(
    Some("Grand Old Mansion"), Some("Veruca Salt"), Some("San Francisco"), Some("Estate"),
    Some(FactoryImage), Some(15), Some(FactoryDescription))

  /** Request attributes that give every column: each string as text and the bedroom count as a number. */
  function FullParams(title: string, owner: string, city: string, category: string,
                      image: string, bedrooms: int, description: string): map<string, Param>
  {
    map[
      "title" := JsonString(title), "owner" := JsonString(owner), "city" := JsonString(city),
      "category" := JsonString(category), "image" := JsonString(image),
      "bedrooms" := JsonNumber(bedrooms), "description" := JsonString(description)]
  }

  /** A record created from full attributes holds exactly those values, column for column. */
  lemma CreatedRecordHoldsParams(title: string, owner: string, city: string, category: string,
                                 image: string, bedrooms: int, description: string)
    ensures Build(RentalParams(FullParams(title, owner, city, category, image, bedrooms, description)))
      == Attributes(Some(title), Some(owner), Some(city), Some(category), Some(image), Some(bedrooms), Some(description))
  {
    var params := FullParams(title, owner, city, category, image, bedrooms, description);
    assert FieldName(Title) in params && FieldName(Owner) in params && FieldName(City) in params;
    assert FieldName(Category) in params && FieldName(Image) in params;
    assert FieldName(Bedrooms) in params && FieldName(Description) in params;
  }

  /** The factory attributes build the factory rental. */
  lemma FactoryParamsBuildFactory()
    ensures Build(RentalParams(FactoryParams())) == Factory
  {
    CreatedRecordHoldsParams(
      "Grand Old Mansion", "Veruca Salt", "San Francisco", "Estate",
      FactoryImage, 15, FactoryDescription);
  }

  /** The factory rental passes every presence validation. */
  lemma FactoryIsComplete()
    ensures Complete(Factory)
  {
    StartsWithNonSpaceIsPresent(Factory.title.value);
    StartsWithNonSpaceIsPresent(Factory.owner.value);
    StartsWithNonSpaceIsPresent(Factory.city.value);
    StartsWithNonSpaceIsPresent(Factory.category.value);
    StartsWithNonSpaceIsPresent(Factory.image.value);
    StartsWithNonSpaceIsPresent(Factory.description.value);
    CompleteIffEveryColumnPresent(Factory);
  }

  /**
   * Posting the factory rental to an empty table creates it under key 1
   * and the list grows from 0 to 1; posting it again is refused as
   * "has already been taken" and the list stays at 1.
   */
  method DuplicateCreateScenario() returns (
    before: nat, created: Result<Rental, Error>, after: nat, duplicate: Result<Rental, Error>, afterDuplicate: nat)
    ensures before == 0 && after == 1 && afterDuplicate == 1
    ensures created == Ok(Rental(1, Factory))
    ensures duplicate.Err? && ErrorTitles(duplicate.error) == [AlreadyTaken]
  {
    var table := new RentalTable();
    var listed := table.Index();
    before := |listed|;
    FactoryParamsBuildFactory();
    FactoryIsComplete();
    created := table.Create(FactoryParams());
    assert table.rows == map[1 := Factory];
    listed := table.Index();
    after := |listed|;
    assert Taken(table.rows, Factory, None) by {
      assert 1 in table.rows && ScopeOf(table.rows[1]) == ScopeOf(Factory);
    }
    assert Validate(table.rows, Factory, None) == [Violation(Title, AlreadyTaken)];
    duplicate := table.Create(FactoryParams());
    assert duplicate == Err(Invalid([Violation(Title, AlreadyTaken)]));
    listed := table.Index();
    afterDuplicate := |listed|;
  }

  /** The response titles of rejected violations are their messages, one for one. */
  lemma TitlesOfViolations(vs: seq<Violation>)
    ensures |ErrorTitles(Invalid(vs))| == |vs|
    ensures forall i :: 0 <= i < |vs| ==> ErrorTitles(Invalid(vs))[i] == vs[i].message
  {
  }

  /** Posting no attributes is refused, and the first error is "can't be blank". */
  method MissingInformationScenario() returns (missing: Result<Rental, Error>)
    ensures missing.Err? && missing.error.Invalid?
    ensures |ErrorTitles(missing.error)| == FieldCount
    ensures forall i :: 0 <= i < FieldCount ==> ErrorTitles(missing.error)[i] == CantBeBlank
    ensures missing.error.violations[0] == Violation(Title, CantBeBlank)
  {
    var table := new RentalTable();
    missing := table.Create(map[]);
    assert RentalParams(map[]) == map[];
    AssignNothing(NoAttributes);
    var errs := Validate(map[], NoAttributes, None);
    assert missing == Err(Invalid(errs));
    EmptyRecordErrors(map[]);
    TitlesOfViolations(errs);
  }

  /** The patch request the update spec sends: a new city, plus the `id` key that strong parameters drop. */
  function CityPatch(city: string): map<string, Param> {
    map["id" := JsonNumber(1), "city" := JsonString(city)]
  }

  /** Strong parameters keep only the city of that patch. */
  lemma CityPatchPermitsCityOnly(city: string)
    ensures RentalParams(CityPatch(city)) == map[City := JsonString(city)]
  {
    var patch := CityPatch(city);
    assert FieldName(City) in patch;
    assert RentalParams(patch).Keys == {City};
  }

  /** Patching the city of the stored factory rental changes only the city and passes validation. */
  lemma CityPatchOfFactory(city: string)
    requires PresentText(Some(city))
    ensures Assign(Factory, RentalParams(CityPatch(city))) == Factory.(city := Some(city))
    ensures Valid(map[1 := Factory], Factory.(city := Some(city)), Some(1))
  {
    CityPatchPermitsCityOnly(city);
    var moved := Factory.(city := Some(city));
    SameValuesSameAttributes(Assign(Factory, map[City := JsonString(city)]), moved);
    FactoryIsComplete();
    CompleteIffEveryColumnPresent(Factory);
    CompleteIffEveryColumnPresent(moved);
  }

  /**
   * With the factory rental stored under key 1, patching its city changes
   * that column only and keeps the count; after destroying it, showing it
   * and destroying it again both report "Record not found".
   */
  method PatchThenDestroyScenario() returns (
    patched: Result<Rental, Error>, count: nat, shown: Result<Rental, Error>, destroyedAgain: Result<Rental, Error>)
    ensures patched == Ok(Rental(1, Factory.(city := Some("Oakland"))))
    ensures count == 1
    ensures shown == Err(NotFound)
    ensures destroyedAgain.Err? && ErrorTitles(destroyedAgain.error) == [RecordNotFound]
  {
    var table := new RentalTable();
    FactoryParamsBuildFactory();
    FactoryIsComplete();
    var _ := table.Create(FactoryParams());
    assert table.rows == map[1 := Factory];

    StartsWithNonSpaceIsPresent("Oakland");
    CityPatchOfFactory("Oakland");
    patched := table.Update(1, CityPatch("Oakland"));
    var listed := table.Index();
    count := |listed|;

    var _ := table.Destroy(1);
    shown := table.Show(1);
    destroyedAgain := table.Destroy(1);
  }
}
