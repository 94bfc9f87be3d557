# car_inventory — a Dafny model of the inventory API's rules

car_inventory is a Laravel REST API for keeping cars and their parts, with a
small JavaScript front end. This project models the parts of it that hold
rules:

- **The part endpoints** (`PartController`).
  - `index` lists parts with their car. It applies a search over part name, serial number and car name, and an exact `car_id` filter. It orders by a whitelisted column, falling back to name ascending, and returns pages of 15.
  - `store` and `update` write validated fields.
  - `destroy` and `restore` move a part between active and deleted.
- **The car endpoints** (`CarController`).
  - `index` lists cars with their parts that are not flagged deleted. It applies a search over name and registration number and a registration-flag filter, orders by name and returns pages of 10.
  - `all` returns every car by name, and `show` returns one car with its parts.
  - `store` and `update` fill the validated columns.
  - `destroy` removes a car, and the parts foreign key cascades the removal to the car's parts.
- **The four form requests.** Each has rules over a JSON request body and messages for failures. They are modelled on a small evaluator of Laravel's validator (`ValidationRules`). The evaluator covers which rules run on absent, blank or null values, where a field stops after an implicit rule fails, `exists:cars,id`, and message selection. For `required_if` it covers how the parameter is compared: "true" becomes a boolean when the other field has the `boolean` rule, and the comparison is then PHP's loose one, so the flags 1 and "1" read true.
- **The front-end translator** (`validationTranslator.js`). It splits a message such as `validation.partNameMax:255` into a key and a parameter, then decides which call to the i18n function `t` to make.

Modules:
- `Wrappers` defines `Option` and `Result`.
- `Text` holds the string helpers: substring search, binary-collation order, digits, split and join.
- `Listing` holds filter, insertion sort and Laravel pagination.
- `Models` holds the `Car` and `Part` rows and the `Database` class with the two tables and their id counters.
- `ValidationRules`.
- `StoreCarRequest`, `UpdateCarRequest`, `StorePartRequest` and `UpdatePartRequest`.
- `PartController` and `CarController`.
- `ValidationTranslator`.

The list endpoints are functions: filter, then sort, then paginate over the tables. The endpoints that change the tables are methods on a `Database` object, with `modifies` clauses. Each such method states the whole new state, keeps the foreign key and the id counters valid, and leaves everything unchanged when it refuses.

`translateValidationErrors` is a method with the loop of the source. It is proved to keep the input's keys in order, and to translate each field's messages element by element.

The model follows the code where it and the repository's other parts disagree:

- **Part deleted flag.** The part controller reads and writes a soft-delete flag (`withTrashed`, `trashed`, `restore`). The Part model has no soft-delete trait, and the parts table has no `deleted_at` column.
  - The model keeps the flag as a column. `destroy` sets it and `restore` clears it.
  - The part list includes flagged parts, as its `withTrashed()` asks. A car's parts, loaded by `with('parts')` (`CarController.php:16`) and `load('parts')` (`CarController.php:56` and 65), leave them out under the soft-delete scope the controller presupposes. Without the trait nothing would filter on the flag.
  - `destroy` on a part that is already flagged flags it again. With the soft-delete trait the controller presupposes, the route binding of `Part $part` (`PartController.php:140`) would answer not found there. As literally written, the first `destroy` removed the row, so a second one finds nothing.
- **Soft-delete calls without the trait.** The part controller calls `withTrashed()` on `Part` (`PartController.php:23` and 160) and on the `car` relation (`PartController.php:25`, 89, 107, 129 and 182), and `trashed()` and `restore()` on a part. Neither the Part nor the Car model uses the soft-delete trait. As written, these calls reach the query builder as unknown methods and throw, and each endpoint's `catch` answers 500. The model reads them as the controller presupposes: a soft-delete scope on parts, and on cars a no-op, since cars are never flagged.
- **Cars are removed outright.** `routes/api.php:16` routes `POST cars/{car}/restore` to a `restore` action that `CarController.php` does not define, and the Car model has no soft-delete trait. `destroy` (`CarController.php:68-73`) deletes the row, and the foreign key removes its parts with it.
- **Car page size.** The car list uses 10 a page (`CarController.php:32`). The car tests count pages by `CarController::ITEMS_PER_PAGE` (`CarControllerTest.php:382` and 397), a constant the controller does not define.
- **Car update.** The update rules have no registration number format. `UpdateCarRequest.UpdateExamples` shows that `INVALID` and `AB1234CD` pass on update, while the controller tests expect them to be refused.
- **Message keys.** Part-update messages are English sentences, not translation keys, so the front end shows them untranslated. The tests expect the creation keys there (`PartController.OverlongNameShown`).
- **Car messages.** The car messages are English too, while the creation tests expect a key `validation.registrationNumberFormat`.

## Model

| member | source | states |
|---|---|---|
| Text.ContainsIff | app/Http/Controllers/Api/PartController.php:32-37 | The substring test used for `LIKE '%s%'` holds exactly when `sub` occurs at some offset of `s` |
| Text.DigitsOfNatToString | app/Http/Controllers/Api/PartController.php:43-45 | Reading back the decimal form of a number gives the number, so a decimal `car_id` names that car |
| Text.JoinSplit | resources/js/utils/validationTranslator.js:6 | Joining the pieces of `split(':')` with `:` gives back the message |
| Text.SplitJoin | resources/js/utils/validationTranslator.js:6 | Splitting a join of separator-free pieces gives back the pieces |
| Text.SplitPieces | resources/js/utils/validationTranslator.js:6-8 | The first piece of a split is the text before the first `:`; there is a second piece exactly when a `:` occurs; the rest is the split of what follows it |
| Text.TakeUntil | resources/js/utils/validationTranslator.js:7 | The key holds no `:`, is a prefix of the message and ends at the first `:` |
| Text.LeadingDigits | resources/js/utils/validationTranslator.js:8 | The longest all-digit prefix: what `parseInt(s, 10)` reads |
| Text.NatToString | app/Http/Requests/StorePartRequest.php:35 | A number's decimal text is non-empty and all digits |
| Text.Lower | app/Http/Controllers/Api/CarController.php:29 | ASCII lower-casing: each of A–Z becomes its a–z letter, every other character stays, and no capital remains |
| Text.LowerIdempotent | app/Http/Controllers/Api/CarController.php:29 | Lower-casing twice gives the same as once |
| Listing.Sort | app/Http/Controllers/Api/PartController.php:52-63 | `orderBy`: the result is a permutation of the input, ordered by the key in the direction |
| Listing.Insert | app/Http/Controllers/Api/PartController.php:59 | Inserting into an ordered list adds exactly the element and keeps the order |
| Listing.SortedPairs | app/Http/Controllers/Api/PartController.php:59 | In an ordered list every earlier row may precede every later one |
| Listing.Filter | app/Http/Controllers/Api/PartController.php:31-45 | `where`: every kept row is from the input and accepted, and every accepted input row is kept as often as the input holds it |
| Listing.FilterKeepsAll | app/Http/Controllers/Api/PartController.php:31-45 | A filter that accepts every row keeps the list as it is |
| Listing.FilterKeepsKeysDistinct | app/Http/Controllers/Api/PartController.php:31-45 | Filtering rows with pairwise different keys keeps the keys pairwise different |
| Listing.PermutationKeepsKeysDistinct | app/Http/Controllers/Api/PartController.php:52-63 | Reordering rows with pairwise different keys keeps the keys pairwise different |
| Listing.FilterKeepsOrder | app/Http/Controllers/Api/PartController.php:31-45 | The kept rows are a subsequence of the input: table order is kept |
| Listing.ResolvePage | app/Http/Controllers/Api/PartController.php:65 | A page number below 1 is page 1; others are kept |
| Listing.LastPage | app/Http/Controllers/Api/PartController.php:65 | The last page is at least 1, and it is the least page count whose pages hold all rows |
| Listing.Window | app/Http/Controllers/Api/PartController.php:65 | A page is the slice from its offset, at most a page long, full when rows remain, empty past the end |
| Listing.Paginate | app/Http/Controllers/Api/PartController.php:65 | `paginate`: total, page size, current page, last page over the filtered total, and the page's window |
| Listing.PageWithin | app/Http/Controllers/Api/PartController.php:65 | A page holds only rows of the list it is cut from |
| Listing.PagesCoverList | app/Http/Controllers/Api/PartController.php:65 | Pages 1 to the last page, joined, are exactly the whole list |
| Listing.TwentyRowsTwoPages | app/Http/Controllers/Api/PartController.php:17 | Twenty rows at 15 a page give a full first page, 5 rows on the second and 2 pages |
| Listing.SortedIds | app/Http/Controllers/Api/PartController.php:23 | The table's keys, each once, in ascending order |
| Models.PartsOf | database/migrations/2025_10_28_170000_create_parts_table.php:14 | A car's parts are exactly the parts whose `car_id` is its id, with their values |
| Models.LoadedParts | app/Http/Controllers/Api/CarController.php:16 | The parts a car's relation loads are exactly its parts not flagged deleted, with their values |
| Models.Database.constructor | database/migrations/2025_10_28_170000_create_parts_table.php:14 | An empty database satisfies the foreign key and counter invariant |
| ValidationRules.ErrorsEmptyIff | app/Http/Requests/StorePartRequest.php:19-26 | The error bag is empty exactly when every field passes its rules |
| ValidationRules.NoFailuresIff | app/Http/Requests/StoreCarRequest.php:24-30 | A field has no failure exactly when each rule that runs on its value accepts it |
| ValidationRules.FailedGrows | app/Http/Requests/StoreCarRequest.php:24-30 | Running more rules never removes a recorded failure |
| ValidationRules.Validated | app/Http/Controllers/Api/CarController.php:47 | `validated()` holds exactly the present fields that have rules, with their values |
| ValidationRules.RequiredStringMax | app/Http/Requests/StorePartRequest.php:22 | `required\|string\|max:n` accepts exactly a present, non-blank string of at most n characters |
| StoreCarRequest.WellFormedIffRuns | app/Http/Requests/StoreCarRequest.php:10 | A string matches the runs two capitals, three digits, two capitals exactly when it has the form AA000XX |
| StoreCarRequest.PatternMatches | app/Http/Requests/StoreCarRequest.php:10 | The pattern matches exactly the AA000XX numbers, and `preg_match` also takes them followed by one newline |
| StoreCarRequest.RegistrationNumberRulesIff | app/Http/Requests/StoreCarRequest.php:24-30 | The number's rules pass exactly when two things hold. The number is present and filled when the flag converts to true (true, 1, "1" or any other non-empty string but "0"). A number that is neither null nor blank is a string of at most 7 characters matching the pattern |
| StoreCarRequest.ConversionsAgreeHere | app/Http/Requests/StoreCarRequest.php:25-30 | The `required_if` on the number reads "true" as a boolean because `is_registered` has the `boolean` rule |
| ValidationRules.DependentMatchesTrue | app/Http/Requests/StoreCarRequest.php:25 | With boolean conversion, `required_if:other,true` applies exactly when the other value converts to true |
| StoreCarRequest.IsRegisteredRulesIff | app/Http/Requests/StoreCarRequest.php:31 | The flag passes exactly when absent, blank or one of true, false, 0, 1, "0", "1" |
| StoreCarRequest.Passes | app/Http/Requests/StoreCarRequest.php:20-33 | The creation rules pass exactly when the error bag is empty |
| StoreCarRequest.AcceptsIff | app/Http/Requests/StoreCarRequest.php:20-33 | A request is accepted exactly when the name, number and flag conditions all hold; a flag of 1 or "1" needs the number as true does |
| StoreCarRequest.AcceptedNumberIsWellFormed | app/Http/Requests/StoreCarRequest.php:9-10 | Every accepted non-blank number has length 7, letters at 0-1 and 5-6 and digits at 2-4 |
| StoreCarRequest.AcceptedNameBounded | app/Http/Requests/StoreCarRequest.php:23 | An accepted name is a non-blank string of at most 255 characters |
| StoreCarRequest.RegisteredNeedsNumber | app/Http/Requests/StoreCarRequest.php:25 | A request whose flag converts to true (true, 1 or "1") is accepted only with a string number of the form AA000XX |
| StoreCarRequest.UnregisteredMayOmitNumber | app/Http/Requests/StoreCarRequest.php:26 | A car flagged false is accepted with the number absent or null |
| StoreCarRequest.MaxLengthClosesNewlineGap | app/Http/Requests/StoreCarRequest.php:28-29 | `AB123CD\n` matches the pattern, and the length limit refuses it |
| StoreCarRequest.RegisteredCarIff | app/Http/Requests/StoreCarRequest.php:24-30 | A registered car is accepted exactly when its number has the form AA000XX |
| StoreCarRequest.NumberExamples | app/Http/Requests/StoreCarRequest.php:10 | XY789ZW and AB123CD are accepted; INVALID123, AB1234CD, AB12CD and ab123cd are refused |
| UpdateCarRequest.RegistrationNumberRulesIff | app/Http/Requests/UpdateCarRequest.php:21 | The number's rules pass exactly when two things hold. It is filled when the flag converts to true. A number that is neither null nor blank is a string of at most 255 characters |
| UpdateCarRequest.ConversionsAgreeHere | app/Http/Requests/UpdateCarRequest.php:21-22 | The update's `required_if` reads "true" as a boolean too |
| UpdateCarRequest.Passes | app/Http/Requests/UpdateCarRequest.php:17-24 | The update rules pass exactly when the error bag is empty |
| UpdateCarRequest.AcceptsIff | app/Http/Requests/UpdateCarRequest.php:17-24 | An update is accepted exactly when the name, number and flag conditions hold, with the flag read as on creation |
| UpdateCarRequest.RegisteredNeedsNumber | app/Http/Requests/UpdateCarRequest.php:21 | An update whose flag converts to true (true, 1 or "1") needs a number: a non-blank string of at most 255 characters |
| UpdateCarRequest.UnregisteredMayClearNumber | app/Http/Requests/UpdateCarRequest.php:21 | A car flagged false may set its number to null |
| UpdateCarRequest.UpdateSkipsFormat | app/Http/Requests/UpdateCarRequest.php:21 | Any non-blank number of at most 255 characters is accepted on update, though creation refuses the ill-formed ones |
| UpdateCarRequest.UpdateExamples | app/Http/Requests/UpdateCarRequest.php:21 | INVALID and AB1234CD pass on update and fail on creation |
| StorePartRequest.CarIdRulesIff | app/Http/Requests/StorePartRequest.php:24 | `required\|exists:cars,id` passes exactly for a filled value naming a row of the cars table; a boolean names the id 1 or 0, as the connection binds it |
| StorePartRequest.Passes | app/Http/Requests/StorePartRequest.php:19-26 | The part rules pass exactly when the error bag is empty |
| StorePartRequest.AcceptsIff | app/Http/Requests/StorePartRequest.php:19-26 | A part is accepted exactly with a bounded name and serial number and an existing car |
| StorePartRequest.CarMustExist | app/Http/Requests/StorePartRequest.php:24 | A missing car id, or an id no car has, is refused |
| StorePartRequest.OverlongFailures | app/Http/Requests/StorePartRequest.php:22-23 | A non-blank string over the limit fails `max` and nothing else |
| StorePartRequest.OverlongNameMessage | app/Http/Requests/StorePartRequest.php:35 | An over-long name yields exactly the error `name: validation.partNameMax:255` |
| StorePartRequest.OverlongSerialNumberMessage | app/Http/Requests/StorePartRequest.php:37 | An over-long serial number yields exactly the error `serialnumber: validation.serialNumberMax:255` |
| StorePartRequest.NameLengthBoundary | app/Http/Requests/StorePartRequest.php:9 | A name of 255 characters is accepted and one of 256 is not |
| UpdatePartRequest.Passes | app/Http/Requests/UpdatePartRequest.php:19-26 | The part update rules pass exactly when the error bag is empty |
| UpdatePartRequest.SameAsStore | app/Http/Requests/UpdatePartRequest.php:19-26 | An update accepts exactly the requests creation accepts: bounded name and serial number, existing car |
| UpdatePartRequest.OverlongNameMessage | app/Http/Requests/UpdatePartRequest.php:34-35 | An over-long name yields the English sentence, not a key |
| PartController.Rows | app/Http/Controllers/Api/PartController.php:23-26 | Every part, deleted ones included, appears once with its car, one row per part |
| PartController.ResultsAreMatchingRows | app/Http/Controllers/Api/PartController.php:23-63 | Every listed row is a part of the table, with its car, that the filters accept |
| PartController.ListedIff | app/Http/Controllers/Api/PartController.php:28-45 | A part is listed exactly when a truthy search occurs in its name, serial number or car name, and a non-empty `car_id` names its car; the flag plays no part |
| PartController.NoFilterListsAll | app/Http/Controllers/Api/PartController.php:23 | With no filters every part is listed, deleted or not |
| PartController.CarFilterByDecimalId | app/Http/Controllers/Api/PartController.php:43-45 | `car_id=n` lists exactly the parts of car n |
| PartController.ResultsOrdered | app/Http/Controllers/Api/PartController.php:52-63 | The results are ordered by the effective column in the effective direction |
| PartController.CarNameOrder | app/Http/Controllers/Api/PartController.php:54-57 | `car_name` orders by the owning car's name in the requested direction |
| PartController.UnknownSortFallsBack | app/Http/Controllers/Api/PartController.php:61-63 | Any other `sort_by` orders by name ascending |
| PartController.UnknownSortIgnoresDirection | app/Http/Controllers/Api/PartController.php:61-63 | With any other `sort_by` the requested direction leaves the list as it is |
| PartController.EffectiveSort | app/Http/Controllers/Api/PartController.php:48-63 | Without `sort_by` the list is by name in the requested direction; each whitelisted column is used with the requested direction; any other value gives name ascending |
| PartController.Results | app/Http/Controllers/Api/PartController.php:19-63 | The matching rows, each as often as the filter keeps it, ordered by the effective column and direction |
| PartController.Index | app/Http/Controllers/Api/PartController.php:19-72 | A page of at most 15 rows, all from the results, with the total, current page and last page over the results |
| PartController.IndexAsWritten | app/Http/Controllers/Api/PartController.php:19-72 | Under the soft-delete traits the controller presupposes: the retrieve error exactly for a truthy search with `sort_by=car_name`, else the page `Index` gives |
| PartController.IndexPage | app/Http/Controllers/Api/PartController.php:65 | A page holds at most 15 results; the last page is counted over the filtered total |
| PartController.AmbiguousSearchFails | app/Http/Controllers/Api/PartController.php:28-72 | A truthy search with `sort_by=car_name` makes `index` as written answer its error, whatever the tables hold |
| PartController.IndexAsWrittenElsewhere | app/Http/Controllers/Api/PartController.php:19-67 | Under the soft-delete traits the controller presupposes, every other query gets the intended page |
| PartController.ResultsListEachPartOnce | app/Http/Controllers/Api/PartController.php:23-63 | The list holds no part twice |
| PartController.UnfilteredListsEveryPart | app/Http/Controllers/Api/PartController.php:23-45 | Without a truthy search and a non-empty `car_id` the list holds one row per part of the table |
| PartController.TwentyPartsTwoPages | tests/Feature/Api/PartControllerTest.php:464-477 | With 20 parts and no filter, page 1 holds 15, page 2 holds 5, and the last page is 2 |
| PartController.PagesCoverResults | app/Http/Controllers/Api/PartController.php:65 | Walking all pages yields every result once, in order |
| PartController.MarkDeleted | app/Http/Controllers/Api/PartController.php:140-176 | Flagging a part sets its flag and keeps its name, serial number, car and creation time; all other parts and all keys stay |
| PartController.RestoreUndoesDestroy | app/Http/Controllers/Api/PartController.php:140-176 | Restoring a part just deleted gives back the table as it was |
| PartController.FlagDoesNotAffectListing | app/Http/Controllers/Api/PartController.php:23 | Deleting or restoring a part changes no part list and keeps the foreign key |
| PartController.Edited | app/Http/Controllers/Api/PartController.php:123 | An update keeps the creation time and the flag |
| PartController.AcceptedEdit | app/Http/Controllers/Api/PartController.php:122-123 | An accepted update stores the given name and serial number and moves the part to the existing car it names |
| PartController.OverlongNameShown | app/Http/Requests/StorePartRequest.php:35 | An over-long name is shown through the key with `max: 255` on creation, and as a plain sentence on update |
| PartController.Store | app/Http/Controllers/Api/PartController.php:76-98 | An invalid request returns its error bag and changes nothing; a valid one adds the part under the next id, unflagged |
| PartController.Update | app/Http/Controllers/Api/PartController.php:118-138 | Unknown id: not found; invalid request: its errors; else only that part's three fields change |
| PartController.Destroy | app/Http/Controllers/Api/PartController.php:140-154 | Unknown id: not found, no change; else only that part is flagged and its car stays |
| PartController.Restore | app/Http/Controllers/Api/PartController.php:156-191 | Unknown id: not found; unflagged part: not deleted; both change nothing; else only that flag is cleared |
| CarController.Rows | app/Http/Controllers/Api/CarController.php:16 | Every car appears once, one row per car, with the parts its relation loads |
| CarController.ResultsAreMatchingRows | app/Http/Controllers/Api/CarController.php:16-32 | Every listed row is a car of the table, with its parts not flagged deleted, that the filters accept |
| CarController.ListedIff | app/Http/Controllers/Api/CarController.php:18-30 | A car is listed exactly when a truthy search occurs in its name or number, and a given flag equals its boolean reading |
| CarController.FalsySearchIgnored | app/Http/Controllers/Api/CarController.php:18 | An absent search, `''` and `"0"` filter nothing out |
| CarController.RowsCarryAllParts | app/Http/Controllers/Api/CarController.php:16 | Each listed car carries exactly its parts that are not flagged deleted, with their values |
| CarController.ResultsOrdered | app/Http/Controllers/Api/CarController.php:32 | The list is ordered by name ascending |
| CarController.Results | app/Http/Controllers/Api/CarController.php:14-32 | A permutation of the rows the filters accept, each car with its loaded parts, ordered by name ascending |
| CarController.ResultsListEachCarOnce | app/Http/Controllers/Api/CarController.php:16-32 | The list holds no car twice |
| CarController.Index | app/Http/Controllers/Api/CarController.php:14-34 | A page of at most 10 cars, all from the results, with the total, current page and last page over the results |
| CarController.IndexPage | app/Http/Controllers/Api/CarController.php:32 | A page holds at most 10 cars; the last page is counted over the filtered total |
| CarController.Records | app/Http/Controllers/Api/CarController.php:39 | Every car appears once, with its values, one record per car |
| CarController.All | app/Http/Controllers/Api/CarController.php:37-41 | A permutation of the car records, ordered by name ascending, as many as there are cars |
| CarController.AllListsEachCarOnce | app/Http/Controllers/Api/CarController.php:37-41 | `all` lists no car twice and holds as many records as there are cars |
| CarController.AllIsEveryCarByName | app/Http/Controllers/Api/CarController.php:37-41 | `all` holds every car and only cars, ordered by name |
| CarController.Show | app/Http/Controllers/Api/CarController.php:54-57 | A known id gives that car with exactly its parts not flagged deleted; an unknown one gives nothing |
| CarController.DestroyHidesPart | app/Http/Controllers/Api/CarController.php:56 | Deleting a part takes it out of its car's `show`, restoring puts it back, and the car's other parts stay |
| CarController.UnfilteredListsEveryCar | app/Http/Controllers/Api/CarController.php:16-32 | Without a truthy search and a non-empty flag the list holds one row per car |
| CarController.Fill | app/Http/Controllers/Api/CarController.php:48-63 | A column absent from the validated data keeps its value. A present name string is stored. A string number becomes that number and null becomes none. The flag is stored as it converts to bool |
| CarController.StoredCarIsWellFormed | app/Http/Controllers/Api/CarController.php:43-52 | A stored car has the given name; a non-blank number has the form AA000XX; every car stored as registered has such a number |
| CarController.IntegerFlagNeedsNumber | app/Http/Requests/StoreCarRequest.php:25 | The flag 1 needs the number: without one the car is refused, with one it is stored registered with that number |
| CarController.UpdateChangesOnlyGiven | app/Http/Controllers/Api/CarController.php:59-66 | An update stores the given name, a given string or null number and the flag as it converts, leaves omitted columns, and gives a car flagged registered a non-blank number |
| CarController.WithoutCar | database/migrations/2025_10_28_170000_create_parts_table.php:14 | After the cascade exactly the parts of other cars remain, unchanged |
| CarController.CascadeKeepsForeignKeys | database/migrations/2025_10_28_170000_create_parts_table.php:14 | Removing a car with its parts keeps the foreign key and leaves the car no parts |
| CarController.Store | app/Http/Controllers/Api/CarController.php:43-52 | An invalid request returns its errors and changes nothing; a valid one adds the filled car under the next id |
| CarController.Update | app/Http/Controllers/Api/CarController.php:59-66 | Unknown id: not found; invalid request: its errors; else only that car changes |
| CarController.Destroy | app/Http/Controllers/Api/CarController.php:68-73 | Unknown id: not found, no change; else the car and exactly its parts are removed, others untouched |
| ValidationTranslator.ParseInt | resources/js/utils/validationTranslator.js:8 | A segment parses to a number exactly when it starts with a digit |
| ValidationTranslator.TranslateError | resources/js/utils/validationTranslator.js:1-19 | A message passed through is the message itself. A lookup uses the text before the first `:` as key, which starts with `validation.`, and sets `max` only for a key containing `Max`. A truthy string whose key starts with `validation.` is always looked up |
| ValidationTranslator.TranslateErrorIff | resources/js/utils/validationTranslator.js:1-18 | Falsy or non-string messages and keys not starting with `validation.` come back unchanged. A `validation.` key containing `Max` with a non-empty parameter is looked up with `max`; any other `validation.` key without it |
| ValidationTranslator.KeyAndParameter | resources/js/utils/validationTranslator.js:6-14 | A key and one parameter translate by the rule above |
| ValidationTranslator.KeyAlone | resources/js/utils/validationTranslator.js:10-17 | A key alone is looked up without parameter, or returned if it is not a `validation.` key |
| ValidationTranslator.MaxKeyMessage | resources/js/utils/validationTranslator.js:6-12 | For any field name without `:` and any length n, `validation.<name>Max:<n>` is looked up as `validation.<name>Max` with `max: n` |
| ValidationTranslator.LeadingDigitsOfDigits | resources/js/utils/validationTranslator.js:8 | `parseInt` of a string of digits reads all of it |
| ValidationTranslator.LeadingDigitsBeforeNonDigit | resources/js/utils/validationTranslator.js:8 | The digits read stop where a non-digit follows |
| ValidationTranslator.ParseIntOfNumber | resources/js/utils/validationTranslator.js:8 | `parseInt` of a decimal number followed by non-digit text gives that number |
| ValidationTranslator.PartNameMaxMessage | resources/js/utils/validationTranslator.js:11-12 | `validation.partNameMax:255` calls `t('validation.partNameMax', {max: 255})` |
| ValidationTranslator.PlainKeyMessage | resources/js/utils/validationTranslator.js:14 | `validation.carRequired` calls `t('validation.carRequired')` |
| ValidationTranslator.SentenceMessage | resources/js/utils/validationTranslator.js:17 | An English sentence is returned as it is |
| ValidationTranslator.OnlyTwoSegments | resources/js/utils/validationTranslator.js:6-8 | Anything after a second `:` does not change the translation |
| ValidationTranslator.SplitNoSeparator | resources/js/utils/validationTranslator.js:6 | No piece of a split holds the separator |
| ValidationTranslator.TranslateField | resources/js/utils/validationTranslator.js:25-28 | An array is translated element by element, same length and order; a single value once |
| ValidationTranslator.TranslateErrors | resources/js/utils/validationTranslator.js:20-32 | A falsy or non-object input comes back as it is; otherwise the result has the input's keys in order, each with its messages translated |

## Left out

- HTTP and JSON response shaping, status codes and the success/error envelopes are not modelled. The `catch (\Exception)` paths that answer 500 on infrastructure failures are left out too. Under the soft-delete traits the controller presupposes, the one failure the part list's own query causes is modelled (`IndexAsWritten`, see Findings).
- Laravel's `ConvertEmptyStringsToNull` and `TrimStrings` middleware are not modelled. Request values reach the rules as sent.
- Search is a plain substring test. SQL `LIKE` wildcards inside the search text, collation and case sensitivity are not modelled. Ordering is by character codes, as a binary collation gives.
- The order of rows with equal sort keys is not fixed. Only sortedness and the permutation are stated.
- PartController.IndexAsWrittenElsewhere: assumes the soft-delete traits the controller presupposes. As literally written, `Part::withTrashed()` and the car relation's `withTrashed()` throw, so `index`, `show`, `store`, `update` and `restore` answer 500; the model does not state that.
- StorePartRequest.CarIdRulesIff: a `car_id` string the database coerces to a number, such as "1.0" or " 1", is modelled as naming no car. Only decimal digit strings, non-negative integers and booleans name an id. `StorePartRequest.AcceptsIff` and `UpdatePartRequest.SameAsStore` inherit this.
- PartController.EffectiveSort: `sort_direction` is taken as asc or desc. Other values go to the query builder, whose reaction is library behaviour.
- A `car_id` query value that is not a decimal number is modelled as matching no part. The database's coercion of such strings is not modelled.
- `$request->boolean()` is modelled without the surrounding whitespace trimming it applies.
- ValidationTranslator.ParseInt: reads leading decimal digits. It does not model a sign, leading whitespace or values beyond integers.
- Floating-point numbers in request bodies are not modelled. Arrays and objects are modelled by their entry count only (`JArray`): `required` refuses an empty one, `max` counts entries, and `string`, `regex` and `boolean` refuse them.
- `exists:cars,id` on an array value is modelled as failing. Laravel checks each element instead; the `required` before it already refuses an empty array.
- ValidationRules.DependentMatches: PHP's loose comparison of a number with a numeric string ("01", "1e0", " 1") or of two numeric strings is modelled as plain text equality. The one `required_if` in the requests compares with "true", which the conversion to a boolean covers.
- An edit of a part that is flagged deleted succeeds in the model (`Update`), as the flag is a plain column. With the soft-delete trait the controller expects, the route binding would answer not found.
- ValidationTranslator.TranslateErrors: an object's entries are taken in their given order. JavaScript lists integer-like keys first.
- Timestamps other than a part's creation time, and `parts.deleted_at` as a time, are not modelled: the deleted state is a flag.
- The car restore route, car soft delete, restore cascades, `parts_count` and car `sort_by` are not modelled. The controller has none of them.
- Part `show` is not modelled. It is a plain read of one row with its car.
- Authentication, routing, factories, the seeder, the i18n setup and the front-end constants are not modelled.
- Concurrency and transactions are not modelled. Each request runs alone.

## Findings

| source | as written | input that shows it | evidently intended | confidence | as-written member | corrected member |
|---|---|---|---|---|---|---|
| app/Http/Controllers/Api/PartController.php:32 | With the soft-delete traits the controller presupposes in place, the search filters on an unqualified `name`. The `car_name` sort joins `cars`, which has a `name` column too, so the database refuses the query as ambiguous and `index` answers its 500 error | `GET /api/parts?search=brake&sort_by=car_name` | The search reads the part's own name (`parts.name`), and the list is filtered and ordered by car name | high; not executed | PartController.AmbiguousSearchFails | PartController.CarNameOrder |
