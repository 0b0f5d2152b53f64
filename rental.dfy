/**
 * The Rental record and its validations.
 *
 * A record has seven user columns, each nullable in the table; `id` is the
 * primary key the table assigns. Before any write the record must pass
 * seven presence validations and one scoped uniqueness validation of
 * `title` over (owner, city, category, bedrooms). Every validator runs, in
 * declaration order, and each failure adds one violation.
 */
module Rental {
  import opened Wrappers
  import opened AttributeTypes

  /** The seven user columns, in the order the validations are declared. */
  datatype Field = Title | Owner | City | Category | Image | Bedrooms | Description

  const FieldCount := 7

  /** The column at position `k` of the declaration order title, owner, city, category, image, bedrooms, description. */
  function FieldAt(k: nat): Field
    requires k < FieldCount
  {
    if k == 0 then Title
    else if k == 1 then Owner
    else if k == 2 then City
    else if k == 3 then Category
    else if k == 4 then Image
    else if k == 5 then Bedrooms
    else Description
  }

  const AllFields: set<Field> := {Title, Owner, City, Category, Image, Bedrooms, Description}

  /** The attribute key of each column, as a request spells it. */
  function FieldName(f: Field): string {
    match f
    case Title => "title"
    case Owner => "owner"
    case City => "city"
    case Category => "category"
    case Image => "image"
    case Bedrooms => "bedrooms"
    case Description => "description"
  }

  /** The column a request key names, if any. */
  function FieldNamed(key: string): (f: Option<Field>)
    ensures f.Some? ==> FieldName(f.value) == key
    ensures f.None? ==> forall g :: FieldName(g) != key
  {
    if key == "title" then Some(Title)
    else if key == "owner" then Some(Owner)
    else if key == "city" then Some(City)
    else if key == "category" then Some(Category)
    else if key == "image" then Some(Image)
    else if key == "bedrooms" then Some(Bedrooms)
    else if key == "description" then Some(Description)
    else None
  }

  /** Column names are distinct: each names exactly one column. */
  lemma FieldNameRoundTrip(f: Field)
    ensures FieldNamed(FieldName(f)) == Some(f)
  {
  }

  /** Where a column stands in declaration order. */
  function Position(f: Field): (i: nat)
    ensures i < FieldCount && FieldAt(i) == f
  {
    match f
    case Title => 0
    case Owner => 1
    case City => 2
    case Category => 3
    case Image => 4
    case Bedrooms => 5
    case Description => 6
  }

  lemma PositionOfFieldAt(k: nat)
    requires k < FieldCount
    ensures Position(FieldAt(k)) == k
  {
    if k == 0 {} else if k == 1 {} else if k == 2 {} else if k == 3 {} else if k == 4 {} else if k == 5 {} else {}
  }

  /** The user columns of one row; NULL is `None`. */
  datatype Attributes = Attributes(
    title: Option<string>,
    owner: Option<string>,
    city: Option<string>,
    category: Option<string>,
    image: Option<string>,
    bedrooms: Option<int>,
    description: Option<string>)

  /** A stored row: its primary key and its columns. */
  datatype Rental = Rental(id: int, attrs: Attributes)

  /** A record built with no attributes: every column NULL (the table declares no defaults). */
  const NoAttributes := Attributes(None, None, None, None, None, None, None)

  /** The value of one column, tagged with the column's type. */
  datatype Value = StringValue(s: Option<string>) | IntegerValue(n: Option<int>)

  function ValueOf(a: Attributes, f: Field): Value {
    match f
    case Title => StringValue(a.title)
    case Owner => StringValue(a.owner)
    case City => StringValue(a.city)
    case Category => StringValue(a.category)
    case Image => StringValue(a.image)
    case Bedrooms => IntegerValue(a.bedrooms)
    case Description => StringValue(a.description)
  }

  /** Two rows with the same value in every column are the same row. */
  lemma SameValuesSameAttributes(a: Attributes, b: Attributes)
    requires forall f :: ValueOf(a, f) == ValueOf(b, f)
    ensures a == b
  {
    assert ValueOf(a, Title) == ValueOf(b, Title);
    assert ValueOf(a, Owner) == ValueOf(b, Owner);
    assert ValueOf(a, City) == ValueOf(b, City);
    assert ValueOf(a, Category) == ValueOf(b, Category);
    assert ValueOf(a, Image) == ValueOf(b, Image);
    assert ValueOf(a, Bedrooms) == ValueOf(b, Bedrooms);
    assert ValueOf(a, Description) == ValueOf(b, Description);
  }

  /** The value a parameter gives a column of that column's type. */
  function Cast(f: Field, p: Param): Value
    requires IsScalar(p)
  {
    if f == Bedrooms then IntegerValue(CastInteger(p)) else StringValue(CastString(p))
  }

  /**
   * Attribute assignment: every supplied column takes the cast parameter,
   * every other column keeps its value.
   */
  function Assign(a: Attributes, params: map<Field, Param>): (r: Attributes)
    requires forall f :: f in params ==> IsScalar(params[f])
    ensures forall f :: ValueOf(r, f) == if f in params then Cast(f, params[f]) else ValueOf(a, f)
  {
    Attributes(
      if Title in params then CastString(params[Title]) else a.title,
      if Owner in params then CastString(params[Owner]) else a.owner,
      if City in params then CastString(params[City]) else a.city,
      if Category in params then CastString(params[Category]) else a.category,
      if Image in params then CastString(params[Image]) else a.image,
      if Bedrooms in params then CastInteger(params[Bedrooms]) else a.bedrooms,
      if Description in params then CastString(params[Description]) else a.description)
  }

  /** `Rental.new(params)`: assignment over a record with every column NULL. */
  function Build(params: map<Field, Param>): (r: Attributes)
    requires forall f :: f in params ==> IsScalar(params[f])
  {
    Assign(NoAttributes, params)
  }

  /** Assigning nothing leaves a record as it was. */
  lemma AssignNothing(a: Attributes)
    ensures Assign(a, map[]) == a
  {
    SameValuesSameAttributes(Assign(a, map[]), a);
  }

  /** Assigning the same parameters twice is the same as assigning them once. */
  lemma AssignTwice(a: Attributes, params: map<Field, Param>)
    requires forall f :: f in params ==> IsScalar(params[f])
    ensures Assign(Assign(a, params), params) == Assign(a, params)
  {
    SameValuesSameAttributes(Assign(Assign(a, params), params), Assign(a, params));
  }

  // ---------------------------------------------------------------------------
  // Presence

  const CantBeBlank := "can't be blank"
  const AlreadyTaken := "has already been taken"

  /** One failed validation: the column it is reported on and its message. */
  datatype Violation = Violation(field: Field, message: string)

  /** `presence: true` fails on NULL, and on a string column also on blank text; 0 is present. */
  predicate IsBlank(a: Attributes, f: Field) {
    match ValueOf(a, f)
    case StringValue(s) => s.None? || BlankString(s.value)
    case IntegerValue(n) => n.None?
  }

  /** Every presence validation passes. */
  predicate Complete(a: Attributes) {
    forall f :: !IsBlank(a, f)
  }

  /** A string column passes its presence validation. */
  predicate PresentText(s: Option<string>) {
    s.Some? && !BlankString(s.value)
  }

  /** Text whose first character is not white space passes a presence validation. */
  lemma StartsWithNonSpaceIsPresent(s: string)
    requires |s| > 0 && !IsSpace(s[0])
    ensures PresentText(Some(s))
  {
  }

  /** A record passes every presence validation exactly when each column is present, column by column. */
  lemma CompleteIffEveryColumnPresent(a: Attributes)
    ensures Complete(a) <==>
      && PresentText(a.title) && PresentText(a.owner) && PresentText(a.city) && PresentText(a.category)
      && PresentText(a.image) && a.bedrooms.Some? && PresentText(a.description)
  {
    if Complete(a) {
      assert !IsBlank(a, Title) && !IsBlank(a, Owner) && !IsBlank(a, City) && !IsBlank(a, Category);
      assert !IsBlank(a, Image) && !IsBlank(a, Bedrooms) && !IsBlank(a, Description);
    }
  }

  /** The presence violations of the columns from position `k` on, in declaration order. */
  function PresenceErrorsFrom(a: Attributes, k: nat): (errs: seq<Violation>)
    requires k <= FieldCount
    ensures forall v :: v in errs ==> v.message == CantBeBlank && k <= Position(v.field) && IsBlank(a, v.field)
    ensures forall f :: k <= Position(f) && IsBlank(a, f) ==> Violation(f, CantBeBlank) in errs
    ensures forall i, j :: 0 <= i < j < |errs| ==> Position(errs[i].field) < Position(errs[j].field)
    decreases FieldCount - k
  {
    if k == FieldCount then []
    else
      var f := FieldAt(k);
      var rest := PresenceErrorsFrom(a, k + 1);
      PositionOfFieldAt(k);
      if IsBlank(a, f) then [Violation(f, CantBeBlank)] + rest else rest
  }

  // ---------------------------------------------------------------------------
  // Scoped uniqueness

  /** The columns `title` must be unique together with. */
  datatype Scope = Scope(
    title: Option<string>,
    owner: Option<string>,
    city: Option<string>,
    category: Option<string>,
    bedrooms: Option<int>)

  function ScopeOf(a: Attributes): Scope {
    Scope(a.title, a.owner, a.city, a.category, a.bedrooms)
  }

  /**
   * Some stored row other than the record itself (`self` is its id once it
   * is persisted) has the same title, owner, city, category and bedrooms.
   * NULL matches NULL, as in an `IS NULL` condition.
   */
  predicate Taken(rows: map<int, Attributes>, a: Attributes, self: Option<int>) {
    exists id :: id in rows && self != Some(id) && ScopeOf(rows[id]) == ScopeOf(a)
  }

  // ---------------------------------------------------------------------------
  // All validations

  /**
   * Runs every validation of a candidate record against the stored rows:
   * the presence violations in declaration order, then the uniqueness
   * violation on `title`. The record is valid when the list is empty.
   */
  function Validate(rows: map<int, Attributes>, a: Attributes, self: Option<int>): (errs: seq<Violation>)
    ensures errs == [] <==> Complete(a) && !Taken(rows, a, self)
    ensures forall f :: Violation(f, CantBeBlank) in errs <==> IsBlank(a, f)
    ensures Violation(Title, AlreadyTaken) in errs <==> Taken(rows, a, self)
    ensures forall v :: v in errs ==> v.message == CantBeBlank || v == Violation(Title, AlreadyTaken)
    ensures !Complete(a) ==> |errs| > 0 && errs[0].message == CantBeBlank
    ensures Complete(a) && Taken(rows, a, self) ==> errs == [Violation(Title, AlreadyTaken)]
  {
    var presence := PresenceErrorsFrom(a, 0);
    presence + if Taken(rows, a, self) then [Violation(Title, AlreadyTaken)] else []
  }

  predicate Valid(rows: map<int, Attributes>, a: Attributes, self: Option<int>) {
    Validate(rows, a, self) == []
  }

  /**
   * What every write keeps true of the table: each row passes the presence
   * validations, and no two rows share a scope tuple.
   */
  predicate TableInvariant(rows: map<int, Attributes>) {
    && (forall id :: id in rows ==> Complete(rows[id]))
    && (forall i, j :: i in rows && j in rows && i != j ==> ScopeOf(rows[i]) != ScopeOf(rows[j]))
  }

  // ---------------------------------------------------------------------------
  // Properties

  /** A valid record has a non-blank value in each of its seven columns. */
  lemma ValidHasEveryField(rows: map<int, Attributes>, a: Attributes, self: Option<int>)
    requires Valid(rows, a, self)
    ensures forall f :: !IsBlank(a, f)
    ensures a.title.Some? && a.owner.Some? && a.city.Some? && a.category.Some?
    ensures a.image.Some? && a.bedrooms.Some? && a.description.Some?
  {
    assert !IsBlank(a, Title) && !IsBlank(a, Owner) && !IsBlank(a, City) && !IsBlank(a, Category);
    assert !IsBlank(a, Image) && !IsBlank(a, Bedrooms) && !IsBlank(a, Description);
  }

  /** Presence of `bedrooms` fails only on NULL: zero and negative counts are present. */
  lemma BedroomsBlankOnlyWhenMissing(a: Attributes)
    ensures IsBlank(a, Bedrooms) <==> a.bedrooms == None
    ensures a.bedrooms == Some(0) ==> Violation(Bedrooms, CantBeBlank) !in PresenceErrorsFrom(a, 0)
  {
  }

  /**
   * Violations come in the order the validations are declared: presence
   * errors in column order, each column at most once, and the uniqueness
   * error, if any, last.
   */
  lemma ViolationsInDeclarationOrder(rows: map<int, Attributes>, a: Attributes, self: Option<int>)
    ensures var errs := Validate(rows, a, self);
      forall i, j :: 0 <= i < j < |errs| ==>
        && errs[i].message == CantBeBlank
        && (errs[j].message == CantBeBlank ==> Position(errs[i].field) < Position(errs[j].field))
  {
    var presence := PresenceErrorsFrom(a, 0);
    var tail := if Taken(rows, a, self) then [Violation(Title, AlreadyTaken)] else [];
    var errs := Validate(rows, a, self);
    assert errs == presence + tail;
    assert AlreadyTaken[0] != CantBeBlank[0];
    forall i, j | 0 <= i < j < |errs|
      ensures errs[i].message == CantBeBlank
      ensures errs[j].message == CantBeBlank ==> Position(errs[i].field) < Position(errs[j].field)
    {
      assert i < |presence| && errs[i] == presence[i] && presence[i] in presence;
      if j >= |presence| {
        assert errs[j] == tail[0] == Violation(Title, AlreadyTaken);
      } else {
        assert errs[j] == presence[j];
      }
    }
  }

  /**
   * A string column that is NULL, or whose text is empty or made only of
   * white space (ASCII or Unicode, such as a no-break space), gets
   * "can't be blank".
   */
  lemma WhiteSpaceTextReported(rows: map<int, Attributes>, a: Attributes, self: Option<int>, f: Field, s: string)
    requires f != Bedrooms
    requires ValueOf(a, f) == StringValue(None)
          || (ValueOf(a, f) == StringValue(Some(s)) && forall i :: 0 <= i < |s| ==> IsSpace(s[i]))
    ensures Violation(f, CantBeBlank) in Validate(rows, a, self)
  {
    assert IsBlank(a, f);
  }

  /** A string column holding any character other than white space gets no "can't be blank". */
  lemma NonSpaceTextNotReported(rows: map<int, Attributes>, a: Attributes, self: Option<int>, f: Field, s: string, i: nat)
    requires ValueOf(a, f) == StringValue(Some(s)) && i < |s| && !IsSpace(s[i])
    ensures Violation(f, CantBeBlank) !in Validate(rows, a, self)
  {
    assert !IsBlank(a, f);
  }

  /** Unfolds the presence validations one column at a time. */
  lemma PresenceStep(a: Attributes, k: nat)
    requires k < FieldCount
    ensures PresenceErrorsFrom(a, k) ==
      (if IsBlank(a, FieldAt(k)) then [Violation(FieldAt(k), CantBeBlank)] else []) + PresenceErrorsFrom(a, k + 1)
  {
  }

  /** When every column is blank, each one is reported once. */
  lemma {:induction false} AllBlankReportsEveryField(a: Attributes, k: nat)
    requires k <= FieldCount
    requires forall j :: 0 <= j < FieldCount ==> IsBlank(a, FieldAt(j))
    ensures |PresenceErrorsFrom(a, k)| == FieldCount - k
    decreases FieldCount - k
  {
    if k < FieldCount {
      AllBlankReportsEveryField(a, k + 1);
      PresenceStep(a, k);
      assert IsBlank(a, FieldAt(k));
    }
  }

  /** Every column of a record built from no attributes is blank. */
  lemma NoAttributesIsBlank()
    ensures forall f :: IsBlank(NoAttributes, f)
    ensures forall j :: 0 <= j < FieldCount ==> IsBlank(NoAttributes, FieldAt(j))
  {
  }

  /** No stored row of a valid table has the all-NULL scope tuple. */
  lemma NoRowMatchesEmptyRecord(rows: map<int, Attributes>)
    requires TableInvariant(rows)
    ensures !Taken(rows, NoAttributes, None)
  {
    if Taken(rows, NoAttributes, None) {
      var id :| id in rows && ScopeOf(rows[id]) == ScopeOf(NoAttributes);
      assert rows[id].title == None;
      assert IsBlank(rows[id], Title);
      assert false;
    }
  }

  /**
   * A record built from no attributes fails all seven presence validations
   * and nothing else: one "can't be blank" per column, title first, in
   * declaration order.
   */
  lemma EmptyRecordErrors(rows: map<int, Attributes>)
    requires TableInvariant(rows)
    ensures Validate(rows, NoAttributes, None) == PresenceErrorsFrom(NoAttributes, 0)
    ensures |Validate(rows, NoAttributes, None)| == FieldCount
    ensures Validate(rows, NoAttributes, None)[0] == Violation(Title, CantBeBlank)
  {
    NoRowMatchesEmptyRecord(rows);
    var errs := Validate(rows, NoAttributes, None);
    assert errs == PresenceErrorsFrom(NoAttributes, 0);
    NoAttributesIsBlank();
    AllBlankReportsEveryField(NoAttributes, 0);
  }

  /** A stored row with the candidate's scope tuple makes the candidate "already taken". */
  lemma SameScopeIsTaken(rows: map<int, Attributes>, id: int, a: Attributes, self: Option<int>)
    requires id in rows && self != Some(id) && ScopeOf(rows[id]) == ScopeOf(a)
    ensures Violation(Title, AlreadyTaken) in Validate(rows, a, self)
    ensures !Valid(rows, a, self)
  {
  }

  /** `image` and `description` play no part in the uniqueness validation. */
  lemma UniquenessIgnoresImageAndDescription(
    rows: map<int, Attributes>, a: Attributes, b: Attributes, self: Option<int>)
    requires ScopeOf(a) == ScopeOf(b)
    ensures Taken(rows, a, self) <==> Taken(rows, b, self)
  {
  }

  /** Two complete records that differ in some scope column can both be stored. */
  lemma DifferentScopesBothValid(a: Attributes, b: Attributes, idA: int, idB: int)
    requires Complete(a) && Complete(b) && ScopeOf(a) != ScopeOf(b) && idA != idB
    ensures Valid(map[idA := a], b, None)
    ensures Valid(map[idB := b], a, None)
    ensures TableInvariant(map[idA := a, idB := b])
  {
    var rows := map[idA := a, idB := b];
    assert rows.Keys == {idA, idB};
  }

  /** During an update the row itself is left out, so re-saving a stored row unchanged stays valid. */
  lemma ResaveUnchangedIsValid(rows: map<int, Attributes>, id: int)
    requires TableInvariant(rows) && id in rows
    ensures Valid(rows, rows[id], Some(id))
  {
  }

  /** Leaving the record's own row out of the check can only remove conflicts. */
  lemma ExcludingSelfOnlyRemovesConflicts(rows: map<int, Attributes>, a: Attributes, id: int)
    requires Valid(rows, a, None)
    ensures Valid(rows, a, Some(id))
  {
  }

  /** Writing a record that passed validation at key `id` keeps the table invariant. */
  lemma ValidatedWriteKeepsInvariant(rows: map<int, Attributes>, id: int, a: Attributes)
    requires TableInvariant(rows) && Valid(rows, a, Some(id))
    ensures TableInvariant(rows[id := a])
  {
    var rows' := rows[id := a];
    forall i, j | i in rows' && j in rows' && i != j
      ensures ScopeOf(rows'[i]) != ScopeOf(rows'[j])
    {
      if i == id {
        assert !(j in rows && Some(id) != Some(j) && ScopeOf(rows[j]) == ScopeOf(a));
      } else if j == id {
        assert !(i in rows && Some(id) != Some(i) && ScopeOf(rows[i]) == ScopeOf(a));
      }
    }
  }

  /** Removing a row keeps the table invariant. */
  lemma RemovalKeepsInvariant(rows: map<int, Attributes>, id: int)
    requires TableInvariant(rows)
    ensures TableInvariant(rows - {id})
  {
  }
}
