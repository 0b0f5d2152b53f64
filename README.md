# Rentals: a verified model of the rental listing service

This project models the core of a small Rails JSON:API service that manages
vacation-rental listings. A rental has seven attributes:

- `title`, `owner`, `city`, `category`, `image` and `description` are string columns;
- `bedrooms` is an integer column.

The service offers the usual resource actions: index, show, new, create,
update and destroy. The model covers three things:

- **The attribute types** (`attribute_types.dfy`, module `AttributeTypes`).
  A request value is a JSON string, number, boolean, null or structured value.
  A value is cast into a string column or an integer column the way the
  framework's attribute types cast it:
  - a number written to a string column becomes its decimal text;
  - `true` and `false` become `"t"` and `"f"`, or 1 and 0;
  - a blank string written to an integer column becomes NULL;
  - any other string written to an integer column is read by Ruby's `String#to_i`.

  "Blank" means `blank?`: missing, or made only of white-space characters.
- **The record and its validations** (`rental.dfy`, module `Rental`).
  - Each of the seven attributes must be present.
  - The title must be unique within the scope (owner, city, category, bedrooms).
  - `Validate` returns the violations the record would show:
    - first the "can't be blank" errors, in declaration order;
    - then "has already been taken" on `title` when another stored row has the same scope.
  - Rails groups error messages by attribute, so a title that was both blank
    and taken would list its two errors next to each other. That case needs a
    stored row with a blank title, which `TableInvariant` and every write
    rule out. So in every reachable table the uniqueness error comes last,
    after the presence errors in declaration order.
  - On update the record's own row is excluded from the uniqueness check.
  - `TableInvariant` is the property every stored table keeps. Each row is
    complete, and no two rows share a scope.
- **The controller** (`rentals_controller.dfy`, module `RentalsController`).
  - `RentalParams` models strong parameters: it keeps only the seven
    permitted keys.
  - `RentalTable` is the rentals table: a map from id to attributes, plus
    the next id to hand out. Its methods are the six actions.
  - `Create` and `Update` write only when `Validate` reports nothing.
  - `Show`, `Update` and `Destroy` answer `NotFound` ("Record not found")
    for an unknown id.
  - The scenario methods at the end replay the request examples against
    the model: the duplicate create, the create with missing information,
    and patch-then-destroy.

Three behaviours of the code are worth spelling out:

- **Uniqueness runs even when a presence check fails.** Rails runs every
  validator on `save`, so a record that is missing `image` but repeats a
  stored scope reports both "can't be blank" and "has already been taken".
  `Validate` states exactly this.
- **Blank text fails presence as well as missing text.** A string made only
  of white space is blank. `bedrooms` is blank only when it is NULL, so 0 is
  a valid count.
- **The index is in ascending id order.** `Rental.all` has no ordering
  clause; the model lists rows by ascending id. Ids are handed out in
  increasing order and never reused, so this is creation order.

## Model

| member | source | states |
|---|---|---|
| AttributeTypes.DecimalStringRoundTrip | db/migrate/20200617222909_create_rentals.rb:9 | reading the decimal text of any integer back with `to_i` gives that integer |
| AttributeTypes.IntegerCastMissing | db/migrate/20200617222909_create_rentals.rb:9 | the integer column is left NULL exactly when the value is null or blank text; numbers, booleans and non-blank text always give a value |
| AttributeTypes.DecimalTextCastsLikeNumber | db/migrate/20200617222909_create_rentals.rb:4-10 | a number in a string column is stored as its decimal text; a bedroom count sent as decimal text is stored as the same integer as the count sent as a number |
| Rental.FieldNamed | app/controllers/rentals_controller.rb:34 | a key names a permitted attribute exactly when it is one of the seven attribute names, and then names that attribute |
| Rental.FieldNameRoundTrip | app/controllers/rentals_controller.rb:34 | looking up an attribute's own name gives back that attribute |
| Rental.Position | app/models/rental.rb:3-9 | every attribute has a declaration position below seven, and the position names that attribute |
| Rental.PositionOfFieldAt | app/models/rental.rb:3-9 | the attribute declared at position k has position k |
| Rental.SameValuesSameAttributes | db/migrate/20200617222909_create_rentals.rb:4-10 | two records with the same value in every column are the same record |
| Rental.Assign | app/controllers/rentals_controller.rb:18-24 | assigning permitted parameters sets each supplied column to the cast of its value and leaves every other column as it was |
| Rental.AssignNothing | app/controllers/rentals_controller.rb:24 | an update with no permitted parameters leaves the record unchanged |
| Rental.AssignTwice | app/controllers/rentals_controller.rb:24 | assigning the same parameters twice is the same as assigning them once |
| Rental.StartsWithNonSpaceIsPresent | app/models/rental.rb:3-7 | a string whose first character is not white space is present |
| Rental.CompleteIffEveryColumnPresent | app/models/rental.rb:3-9 | a record passes every presence check exactly when all six strings are present, non-blank text and bedrooms is not NULL |
| Rental.PresenceErrorsFrom | app/models/rental.rb:3-9 | reports "can't be blank" for exactly the blank attributes from position k on, each once, in declaration order |
| Rental.Validate | app/models/rental.rb:3-12 | no violations exactly when the record is complete and no other row has its scope; "can't be blank" is reported for exactly the blank attributes; "has already been taken" on title is reported exactly when another row shares the scope; a record with a blank attribute reports a presence error first; a complete duplicate reports only the uniqueness error; the order of the rest is `Rental.ViolationsInDeclarationOrder` |
| Rental.ViolationsInDeclarationOrder | app/models/rental.rb:3-12 | violations come in validator declaration order: "can't be blank" errors by column position, each column at most once, and "has already been taken" only last |
| Rental.ValidHasEveryField | app/models/rental.rb:3-9 | a valid record has no blank attribute |
| Rental.BedroomsBlankOnlyWhenMissing | app/models/rental.rb:8 | bedrooms is blank only when it is NULL, so a count of 0 is present |
| Rental.WhiteSpaceTextReported | app/models/rental.rb:3-9 | a string column that is NULL, or whose text is empty or consists only of white-space characters (ASCII or Unicode, such as a no-break space), is reported "can't be blank" by `Validate` |
| Rental.NonSpaceTextNotReported | app/models/rental.rb:3-9 | a string column holding any non-space character is not reported "can't be blank" |
| Rental.AllBlankReportsEveryField | app/models/rental.rb:3-9 | when every attribute is blank, one presence error is reported per attribute from position k on |
| Rental.NoAttributesIsBlank | app/models/rental.rb:3-9 | a record built from no parameters is blank in every attribute |
| Rental.NoRowMatchesEmptyRecord | app/models/rental.rb:12 | in a table that keeps its invariant, no stored row has the scope of an all-NULL record |
| Rental.EmptyRecordErrors | spec/requests/rental_request_spec.rb:72-76 | in a table that keeps its invariant, an all-NULL record reports exactly the seven presence errors and no uniqueness error, the first being "can't be blank" on title |
| Rental.SameScopeIsTaken | app/models/rental.rb:12 | any other row with the same title, owner, city, category and bedrooms makes the title taken |
| Rental.UniquenessIgnoresImageAndDescription | app/models/rental.rb:12 | image and description do not take part in the uniqueness check |
| Rental.DifferentScopesBothValid | app/models/rental.rb:3-12 | two complete records with different scopes are each valid against a table holding only the other, and a table holding both keeps the invariant |
| Rental.ResaveUnchangedIsValid | app/models/rental.rb:12 | in a table that keeps its invariant, saving a stored row unchanged is valid |
| Rental.ExcludingSelfOnlyRemovesConflicts | app/models/rental.rb:12 | a record that is valid with no row excluded stays valid when its own id is excluded, so excluding can only remove conflicts |
| Rental.ValidatedWriteKeepsInvariant | app/models/rental.rb:3-12 | writing a record that validates, with its own id excluded, keeps every row complete and every scope distinct |
| Rental.RemovalKeepsInvariant | app/controllers/rentals_controller.rb:29 | removing a row keeps the table invariant |
| RentalsController.RentalParams | app/controllers/rentals_controller.rb:33-35 | keeps exactly the request keys that name one of the seven attributes and whose value is a scalar (string, number, boolean or null), each with its value; the property a caller relies on, that other keys are ignored, is `RentalsController.UnpermittedKeyIgnored` |
| RentalsController.UnpermittedKeyIgnored | app/controllers/rentals_controller.rb:34 | adding or changing a key that is not permitted does not change the permitted parameters |
| RentalsController.Listing | app/controllers/rentals_controller.rb:2-4 | lists exactly the stored rows with ids in the range, each once, in ascending id order |
| RentalsController.RentalTable.constructor | db/migrate/20200617222909_create_rentals.rb:3-13 | a new table is empty and hands out id 1 first |
| RentalsController.RentalTable.Index | app/controllers/rentals_controller.rb:2-4 | returns every stored rental exactly once, with its stored attributes, in ascending id order, and nothing else |
| RentalsController.RentalTable.New | app/controllers/rentals_controller.rb:13-15 | returns an unsaved record blank in every attribute, the record built from no parameters |
| RentalsController.RentalTable.Show | app/controllers/rentals_controller.rb:6-11 | returns the stored rental with that id, or NotFound when there is none |
| RentalsController.RentalTable.Create | app/controllers/rentals_controller.rb:17-20 | when the record built from the permitted parameters validates, it is stored under a fresh id and the count grows by one; otherwise the violations are returned and the table is unchanged |
| RentalsController.RentalTable.Update | app/controllers/rentals_controller.rb:22-25 | NotFound for an unknown id; otherwise the permitted parameters are merged into the stored row and validated with the row itself excluded, written only when valid; other rows, unsupplied columns and the count never change |
| RentalsController.RentalTable.Destroy | app/controllers/rentals_controller.rb:27-30 | NotFound for an unknown id; otherwise exactly that row is removed, returned, and the count drops by one |
| RentalsController.CreatedRecordHoldsParams | app/controllers/rentals_controller.rb:18 | a create request with all seven attributes builds a record holding exactly those values |
| RentalsController.FactoryParamsBuildFactory | spec/factories/rentals.rb:1-11 | the factory's attributes sent as request parameters build the factory rental |
| RentalsController.FactoryIsComplete | spec/factories/rentals.rb:1-11 | the factory rental is blank in no attribute |
| RentalsController.DuplicateCreateScenario | spec/requests/rental_request_spec.rb:44-71 | on an empty table, creating the factory rental stores it as id 1 and the count goes from 0 to 1; sending it again is rejected with the single title "has already been taken" and the count stays 1 |
| RentalsController.MissingInformationScenario | spec/requests/rental_request_spec.rb:72-76 | creating a rental with no attributes is rejected with seven "can't be blank" errors, the first on title |
| RentalsController.CityPatchPermitsCityOnly | spec/requests/rental_request_spec.rb:111-116 | a patch carrying an id and a city permits only the city |
| RentalsController.CityPatchOfFactory | spec/requests/rental_request_spec.rb:107-119 | patching the factory rental's city with non-blank text changes only its city, and the result is valid against a table holding the factory at id 1 with that row excluded |
| RentalsController.PatchThenDestroyScenario | spec/requests/rental_request_spec.rb:98-176 | with the factory rental stored at id 1, patching its city succeeds, changes only the city and leaves one rental listed; after destroying it, showing it is NotFound and a second destroy answers "Record not found" |

## Left out

- Routing, the JSON:API request and response envelopes, HTTP status codes and content negotiation: the model starts from the request's attribute map and ends at a `Result`.
- The `created_at`/`updated_at` timestamps: no behaviour here depends on them, and there is no clock in the model.
- The URL form of the id: `find` receives the id as text, and the model takes it as an integer.
- The range check on the integer column: ids and `bedrooms` are unbounded integers here. A value outside the column's 4-byte signed range, which the framework rejects, is not modelled.
- Floating-point JSON numbers: numbers are integers in the model.
- `String#to_i` also accepts underscores between digits and a `0d` prefix. `ParseInt` reads only plain decimal digits after an optional sign.
- Database collation: the uniqueness check compares values exactly. A case-insensitive collation would treat more titles as equal.
- Concurrency: the table has no unique index, so two simultaneous creates could both pass the uniqueness check. The model executes one action at a time.
- Errors from the database itself, such as a lost connection, are not modelled.
- After a failed update, the controller's in-memory object keeps the rejected values. Only the stored table is modelled, and it is unchanged.
- RentalsController.RentalTable.Index: Rails fixes no order for `Rental.all`, and the model promises ascending id order.
- RentalsController.RentalParams: Rails' `permit` also keeps the multiparameter form of each permitted name, such as `title(1)` or `bedrooms(2i)` with a scalar value, and `Rental.new` then assigns those keys. That form is not modelled: such a key is dropped like any other unknown key. `RentalsController.UnpermittedKeyIgnored` therefore holds in Rails only for keys that are not of that form.
