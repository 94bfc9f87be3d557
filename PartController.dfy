/**
 * The part endpoints. `index` lists parts with their car, filtered by a search
 * string and a car id, ordered by a whitelisted column and cut into pages of
 * 15. `store` and `update` write validated fields; `destroy` and `restore`
 * move one part between the states active and deleted.
 *
 * The controller reads and writes a deleted flag on parts (`withTrashed`,
 * `trashed`, `restore`), while the Part model has no soft-delete trait and the
 * parts table no `deleted_at` column. The model follows the controller: the
 * flag is a column, `destroy` sets it, `restore` clears it, and the list shows
 * flagged parts alongside the others. The car relation is loaded with
 * `withTrashed()` too, though the Car model has no soft-delete trait either;
 * as cars are never flagged, the model reads that call as a no-op.
 */
module PartController {
  import opened Wrappers
  import Text
  import opened Listing
  import opened Models
  import opened ValidationRules
  import StorePartRequest
  import UpdatePartRequest
  import ValidationTranslator

  const ItemsPerPage: nat := 15

  /** One listed part, with the car it belongs to loaded alongside. */
  datatype PartRow = PartRow(id: nat, part: Part, car: Car)

  /** The query string of `GET /api/parts`. */
  datatype PartQuery = PartQuery(search: Param, carId: Param, sortBy: Param, sortDirection: Direction, page: int)

  datatype SortKey = ByName | BySerialNumber | ByCreatedAt | ByCarName

  function RowOf(cars: map<nat, Car>, parts: map<nat, Part>, id: nat): PartRow
    requires ForeignKeys(cars, parts) && id in parts
  {
    PartRow(id, parts[id], cars[parts[id].carId])
  }

  /** Every part of the table, deleted ones included, each once with its car, in id order. */
  function Rows(cars: map<nat, Car>, parts: map<nat, Part>): (r: seq<PartRow>)
    requires ForeignKeys(cars, parts)
    ensures forall i :: 0 <= i < |r| ==> r[i].id in parts && r[i] == RowOf(cars, parts, r[i].id)
    ensures forall id :: id in parts ==> exists i :: 0 <= i < |r| && r[i].id == id
    ensures |r| == |parts| && forall i, j :: 0 <= i < j < |r| ==> r[i].id != r[j].id
  {
    var r := RowsFor(cars, parts, SortedIds(parts.Keys));
    RowsListEach(cars, parts, r);
    r
  }

  /** The rows built for the table's keys in order hold each part once. */
  lemma RowsListEach(cars: map<nat, Car>, parts: map<nat, Part>, r: seq<PartRow>)
    requires ForeignKeys(cars, parts) && r == RowsFor(cars, parts, SortedIds(parts.Keys))
    ensures forall i :: 0 <= i < |r| ==> r[i].id in parts && r[i] == RowOf(cars, parts, r[i].id)
    ensures forall id :: id in parts ==> exists i :: 0 <= i < |r| && r[i].id == id
    ensures |r| == |parts| && forall i, j :: 0 <= i < j < |r| ==> r[i].id != r[j].id
  {
    var ids := SortedIds(parts.Keys);
    RowsForKeys(cars, parts, ids, r);
    RowsForCover(cars, parts, ids, r);
    RowsForDistinct(cars, parts, ids, r);
  }

  /** The rows built for the table's keys in order: each is the one for its key. */
  lemma RowsForKeys(cars: map<nat, Car>, parts: map<nat, Part>, ids: seq<nat>, r: seq<PartRow>)
    requires ForeignKeys(cars, parts) && ids == SortedIds(parts.Keys)
    requires r == RowsFor(cars, parts, ids)
    ensures forall i :: 0 <= i < |r| ==> r[i].id in parts && r[i] == RowOf(cars, parts, r[i].id)
    ensures |r| == |parts|
  {
    assert |ids| == |parts.Keys| == |parts|;
  }

  /** Every key of the table has one of the rows built for its keys in order. */
  lemma RowsForCover(cars: map<nat, Car>, parts: map<nat, Part>, ids: seq<nat>, r: seq<PartRow>)
    requires ForeignKeys(cars, parts) && ids == SortedIds(parts.Keys)
    requires r == RowsFor(cars, parts, ids)
    ensures forall id :: id in parts ==> exists i :: 0 <= i < |r| && r[i].id == id
  {
    forall id | id in parts
      ensures exists i :: 0 <= i < |r| && r[i].id == id
    {
      assert id in ids;
      var i :| 0 <= i < |ids| && ids[i] == id;
      assert r[i].id == ids[i];
    }
  }

  /** No key of the table has two of the rows built for its keys in order. */
  lemma RowsForDistinct(cars: map<nat, Car>, parts: map<nat, Part>, ids: seq<nat>, r: seq<PartRow>)
    requires ForeignKeys(cars, parts) && ids == SortedIds(parts.Keys)
    requires r == RowsFor(cars, parts, ids)
    ensures forall i, j :: 0 <= i < j < |r| ==> r[i].id != r[j].id
  {
    forall i, j | 0 <= i < j < |r|
      ensures r[i].id != r[j].id
    {
      assert r[i].id == ids[i] < ids[j] == r[j].id;
    }
  }

  /** The rows of the parts with ids `ids`, in that order. */
  function RowsFor(cars: map<nat, Car>, parts: map<nat, Part>, ids: seq<nat>): (r: seq<PartRow>)
    requires ForeignKeys(cars, parts) && forall i :: 0 <= i < |ids| ==> ids[i] in parts
    ensures |r| == |ids| && forall i :: 0 <= i < |r| ==> r[i] == RowOf(cars, parts, ids[i])
  {
    if ids == [] then [] else [RowOf(cars, parts, ids[0])] + RowsFor(cars, parts, ids[1..])
  }

  /** The search string occurs in the part's name, its serial number or its car's name. */
  predicate SearchHit(row: PartRow, search: string)
  {
    || Text.Contains(row.part.name, search)
    || Text.Contains(row.part.serialnumber, search)
    || Text.Contains(row.car.name, search)
  }

  /** `where('car_id', $text)` on an integer column: the text is the decimal form of the id. */
  predicate CarHit(row: PartRow, carId: string)
  {
    carId != [] && Text.AllDigits(carId) && Text.DigitsValue(carId) == row.part.carId
  }

  /** Both filters; a filter whose parameter is missing or empty is not applied. */
  predicate Matches(search: Param, carId: Param, row: PartRow)
  {
    && (Truthy(search) ==> SearchHit(row, search.text))
    && (NonEmpty(carId) ==> CarHit(row, carId.text))
  }

  function Keep(search: Param, carId: Param): PartRow -> bool
  {
    row => Matches(search, carId, row)
  }

  /** The `sort_by` value that selects each column. */
  function ColumnName(k: SortKey): string
  {
    match k
    case ByName => "name"
    case BySerialNumber => "serialnumber"
    case ByCreatedAt => "created_at"
    case ByCarName => "car_name"
  }

  /** The column and direction used: the requested ones when whitelisted, else name ascending. */
  function EffectiveSort(q: PartQuery): (r: (SortKey, Direction))
    ensures q.sortBy.Absent? ==> r == (ByName, q.sortDirection)
    ensures forall k :: q.sortBy == Given(ColumnName(k)) ==> r == (k, q.sortDirection)
    ensures q.sortBy.Given? && (forall k :: q.sortBy.text != ColumnName(k)) ==> r == (ByName, Asc)
  {
    assert ColumnName(ByName) == "name" && ColumnName(BySerialNumber) == "serialnumber";
    assert ColumnName(ByCreatedAt) == "created_at" && ColumnName(ByCarName) == "car_name";
    var column := if q.sortBy.Given? then q.sortBy.text else "name";
    if column == "name" then (ByName, q.sortDirection)
    else if column == "serialnumber" then (BySerialNumber, q.sortDirection)
    else if column == "created_at" then (ByCreatedAt, q.sortDirection)
    else if column == "car_name" then (ByCarName, q.sortDirection)
    else (ByName, Asc)
  }

  function ColumnValue(k: SortKey, row: PartRow): SortValue
  {
    match k
    case ByName => TextValue(row.part.name)
    case BySerialNumber => TextValue(row.part.serialnumber)
    case ByCreatedAt => NumberValue(row.part.createdAt)
    case ByCarName => TextValue(row.car.name)
  }

  function Column(k: SortKey): PartRow -> SortValue
  {
    row => ColumnValue(k, row)
  }

  /** All matching rows, ordered; `index` returns one page of these. */
  function Results(cars: map<nat, Car>, parts: map<nat, Part>, q: PartQuery): (r: seq<PartRow>)
    requires ForeignKeys(cars, parts)
    ensures multiset(r) == multiset(Filter(Rows(cars, parts), Keep(q.search, q.carId)))
    ensures Sorted(r, Column(EffectiveSort(q).0), EffectiveSort(q).1)
  {
    var (k, dir) := EffectiveSort(q);
    Sort(Filter(Rows(cars, parts), Keep(q.search, q.carId)), Column(k), dir)
  }

  function Index(cars: map<nat, Car>, parts: map<nat, Part>, q: PartQuery): (r: Page<PartRow>)
    requires ForeignKeys(cars, parts)
    ensures r.total == |Results(cars, parts, q)| && r.perPage == ItemsPerPage && |r.data| <= ItemsPerPage
    ensures r.currentPage == ResolvePage(q.page) && r.lastPage == LastPage(r.total, ItemsPerPage)
    ensures forall i :: 0 <= i < |r.data| ==> r.data[i] in Results(cars, parts, q)
  {
    PageWithin(Results(cars, parts, q), q.page, ItemsPerPage);
    Paginate(Results(cars, parts, q), q.page, ItemsPerPage)
  }

  /** The error `index` answers with when its query fails. */
  const RetrieveError: string := "messages.error.retrieveParts"

  /**
   * `index` as written, under the soft-delete traits the controller
   * presupposes (see the module comment). The search filters on an unqualified `name`; once
   * `sort_by=car_name` joins `cars`, which has a `name` column as well, the
   * database refuses the query as ambiguous and the controller answers with
   * its error. `Index` is the listing the code evidently intends, with the
   * part's own name searched.
   */
  function IndexAsWritten(cars: map<nat, Car>, parts: map<nat, Part>, q: PartQuery): (r: Result<Page<PartRow>, string>)
    requires ForeignKeys(cars, parts)
    ensures r.Failure? <==> Truthy(q.search) && q.sortBy == Given("car_name")
    ensures r.Failure? ==> r.error == RetrieveError
    ensures r.Success? ==> r.value == Index(cars, parts, q)
  {
    if Truthy(q.search) && EffectiveSort(q).0 == ByCarName then Failure(RetrieveError)
    else Success(Index(cars, parts, q))
  }

  /** A search ordered by car name fails, whatever the tables hold. */
  lemma AmbiguousSearchFails(cars: map<nat, Car>, parts: map<nat, Part>, q: PartQuery)
    requires ForeignKeys(cars, parts) && Truthy(q.search) && q.sortBy == Given("car_name")
    ensures IndexAsWritten(cars, parts, q) == Failure(RetrieveError)
  {
    CarNameSort(q);
  }

  /** Under those traits, every other query gets the intended page. */
  lemma IndexAsWrittenElsewhere(cars: map<nat, Car>, parts: map<nat, Part>, q: PartQuery)
    requires ForeignKeys(cars, parts)
    requires !Truthy(q.search) || q.sortBy != Given("car_name")
    ensures IndexAsWritten(cars, parts, q) == Success(Index(cars, parts, q))
  {
  }

  /** Part `id` is among the listed results. */
  predicate Listed(cars: map<nat, Car>, parts: map<nat, Part>, q: PartQuery, id: nat)
    requires ForeignKeys(cars, parts)
  {
    var r := Results(cars, parts, q);
    exists i :: 0 <= i < |r| && r[i].id == id
  }

  /** Every listed row is a part of the table, with its car, that the filters accept. */
  lemma ResultsAreMatchingRows(cars: map<nat, Car>, parts: map<nat, Part>, q: PartQuery)
    requires ForeignKeys(cars, parts)
    ensures var r := Results(cars, parts, q);
            forall i :: 0 <= i < |r| ==> r[i].id in parts && r[i] == RowOf(cars, parts, r[i].id) && Matches(q.search, q.carId, r[i])
  {
    var rows := Rows(cars, parts);
    KeptRowsMatch(cars, parts, q, rows, Filter(rows, Keep(q.search, q.carId)), Results(cars, parts, q));
  }

  /** A reordering of the rows the filters keep holds only rows of the table that match. */
  lemma KeptRowsMatch(cars: map<nat, Car>, parts: map<nat, Part>, q: PartQuery, rows: seq<PartRow>, f: seq<PartRow>, r: seq<PartRow>)
    requires ForeignKeys(cars, parts) && rows == Rows(cars, parts)
    requires f == Filter(rows, Keep(q.search, q.carId))
    requires multiset(r) == multiset(f)
    ensures forall i :: 0 <= i < |r| ==> r[i].id in parts && r[i] == RowOf(cars, parts, r[i].id) && Matches(q.search, q.carId, r[i])
  {
    forall i | 0 <= i < |r|
      ensures r[i].id in parts && r[i] == RowOf(cars, parts, r[i].id) && Matches(q.search, q.carId, r[i])
    {
      assert r[i] in multiset(r);
      assert r[i] in f;
      assert r[i] in rows;
    }
  }

  /**
   * A part is listed exactly when the filters accept it: its name, serial
   * number or car's name contains a truthy search string, and its car id is
   * the given one. Nothing depends on the deleted flag.
   */
  lemma ListedIff(cars: map<nat, Car>, parts: map<nat, Part>, q: PartQuery, id: nat)
    requires ForeignKeys(cars, parts) && id in parts
    ensures Listed(cars, parts, q, id) <==>
              && (Truthy(q.search) ==> SearchHit(RowOf(cars, parts, id), q.search.text))
              && (NonEmpty(q.carId) ==> CarHit(RowOf(cars, parts, id), q.carId.text))
  {
    ResultsAreMatchingRows(cars, parts, q);
    var (k, dir) := EffectiveSort(q);
    var rows := Rows(cars, parts);
    var f := Filter(rows, Keep(q.search, q.carId));
    var r := Sort(f, Column(k), dir);
    assert r == Results(cars, parts, q);
    var row := RowOf(cars, parts, id);
    if Matches(q.search, q.carId, row) {
      var j :| 0 <= j < |rows| && rows[j].id == id;
      assert rows[j] == row;
      assert row in f;
      assert row in multiset(f);
      assert row in r;
      var i :| 0 <= i < |r| && r[i] == row;
      assert r[i].id == id;
    }
  }

  /** A search that matches nothing of a part leaves it out; with no filters every part is listed, deleted or not. */
  lemma NoFilterListsAll(cars: map<nat, Car>, parts: map<nat, Part>, q: PartQuery, id: nat)
    requires ForeignKeys(cars, parts) && id in parts
    requires !Truthy(q.search) && !NonEmpty(q.carId)
    ensures Listed(cars, parts, q, id)
  {
    ListedIff(cars, parts, q, id);
  }

  /** `car_id=<n>`, with `n` written in decimal, lists exactly the parts of car `n`. */
  lemma CarFilterByDecimalId(cars: map<nat, Car>, parts: map<nat, Part>, q: PartQuery, carId: nat, id: nat)
    requires ForeignKeys(cars, parts) && id in parts
    requires !Truthy(q.search) && q.carId == Given(Text.NatToString(carId))
    ensures Listed(cars, parts, q, id) <==> parts[id].carId == carId
  {
    ListedIff(cars, parts, q, id);
    Text.DigitsOfNatToString(carId);
  }

  /** The results are ordered by the effective column in the effective direction. */
  lemma ResultsOrdered(cars: map<nat, Car>, parts: map<nat, Part>, q: PartQuery, i: nat, j: nat)
    requires ForeignKeys(cars, parts)
    requires i < j < |Results(cars, parts, q)|
    ensures var r := Results(cars, parts, q);
            InOrder(ColumnValue(EffectiveSort(q).0, r[i]), ColumnValue(EffectiveSort(q).0, r[j]), EffectiveSort(q).1)
  {
    var (k, dir) := EffectiveSort(q);
    var r := Sort(Filter(Rows(cars, parts), Keep(q.search, q.carId)), Column(k), dir);
    SortedPairs(r, Column(k), dir, i, j);
  }

  /** `sort_by=car_name` orders the parts by their car's name, in the requested direction. */
  lemma CarNameOrder(cars: map<nat, Car>, parts: map<nat, Part>, q: PartQuery, i: nat, j: nat)
    requires ForeignKeys(cars, parts) && q.sortBy == Given("car_name")
    requires i < j < |Results(cars, parts, q)|
    ensures var r := Results(cars, parts, q);
            InOrder(TextValue(r[i].car.name), TextValue(r[j].car.name), q.sortDirection)
  {
    CarNameSort(q);
    SortedByCarName(Results(cars, parts, q), q.sortDirection, i, j);
  }

  lemma SortedByCarName(r: seq<PartRow>, dir: Direction, i: nat, j: nat)
    requires Sorted(r, Column(ByCarName), dir) && i < j < |r|
    ensures InOrder(TextValue(r[i].car.name), TextValue(r[j].car.name), dir)
  {
    SortedPairs(r, Column(ByCarName), dir, i, j);
  }

  lemma CarNameSort(q: PartQuery)
    requires q.sortBy == Given("car_name")
    ensures EffectiveSort(q) == (ByCarName, q.sortDirection)
  {
    assert |q.sortBy.text| == 8;
  }

  /**
   * A `sort_by` outside the whitelist orders by name ascending.
   */
  lemma UnknownSortFallsBack(cars: map<nat, Car>, parts: map<nat, Part>, q: PartQuery, i: nat, j: nat)
    requires ForeignKeys(cars, parts)
    requires q.sortBy.Given? && q.sortBy.text !in {"name", "serialnumber", "created_at", "car_name"}
    requires i < j < |Results(cars, parts, q)|
    ensures var r := Results(cars, parts, q);
            Text.StrLe(r[i].part.name, r[j].part.name)
  {
    ResultsOrdered(cars, parts, q, i, j);
    assert EffectiveSort(q) == (ByName, Asc);
  }

  /** With a `sort_by` outside the whitelist the requested direction has no effect. */
  lemma UnknownSortIgnoresDirection(cars: map<nat, Car>, parts: map<nat, Part>, q: PartQuery, d: Direction)
    requires ForeignKeys(cars, parts)
    requires q.sortBy.Given? && q.sortBy.text !in {"name", "serialnumber", "created_at", "car_name"}
    ensures Results(cars, parts, q.(sortDirection := d)) == Results(cars, parts, q)
  {
    assert EffectiveSort(q) == (ByName, Asc) == EffectiveSort(q.(sortDirection := d));
  }

  /** Pages hold 15 rows; the last page is counted over the filtered results. */
  lemma IndexPage(cars: map<nat, Car>, parts: map<nat, Part>, q: PartQuery)
    requires ForeignKeys(cars, parts)
    ensures var r := Results(cars, parts, q);
            var p := Index(cars, parts, q);
            && p.total == |r| && p.perPage == 15 && p.lastPage == LastPage(|r|, 15)
            && |p.data| <= 15
            && p.data == Window(r, Offset(ResolvePage(q.page), 15), 15)
  {
  }

  /** The list holds each part at most once. */
  lemma ResultsListEachPartOnce(cars: map<nat, Car>, parts: map<nat, Part>, q: PartQuery)
    requires ForeignKeys(cars, parts)
    ensures var r := Results(cars, parts, q);
            forall i, j :: 0 <= i < j < |r| ==> r[i].id != r[j].id
  {
    var rows := Rows(cars, parts);
    var keep := Keep(q.search, q.carId);
    var kept := Filter(rows, keep);
    FilterKeepsKeysDistinct(rows, keep, RowId, kept);
    PermutationKeepsKeysDistinct(Results(cars, parts, q), kept, RowId);
  }

  function RowId(row: PartRow): nat
  {
    row.id
  }

  /** Without a search and a car filter the list holds as many rows as there are parts, deleted ones included. */
  lemma UnfilteredListsEveryPart(cars: map<nat, Car>, parts: map<nat, Part>, q: PartQuery)
    requires ForeignKeys(cars, parts) && !Truthy(q.search) && !NonEmpty(q.carId)
    ensures |Results(cars, parts, q)| == |parts|
  {
    var rows := Rows(cars, parts);
    var keep := Keep(q.search, q.carId);
    forall i | 0 <= i < |rows|
      ensures keep(rows[i])
    {
      assert Matches(q.search, q.carId, rows[i]);
    }
    FilterKeepsAll(rows, keep);
    var r := Results(cars, parts, q);
    assert multiset(r) == multiset(rows);
    assert |r| == |multiset(r)| == |multiset(rows)| == |rows|;
  }

  /** With 20 parts and no filter, page 1 holds 15 of them, page 2 the other 5, and the last page is 2. */
  lemma TwentyPartsTwoPages(cars: map<nat, Car>, parts: map<nat, Part>, q: PartQuery)
    requires ForeignKeys(cars, parts) && |parts| == 20
    requires !Truthy(q.search) && !NonEmpty(q.carId)
    ensures q.page == 1 ==> |Index(cars, parts, q).data| == 15
    ensures q.page == 2 ==> |Index(cars, parts, q).data| == 5
    ensures Index(cars, parts, q).lastPage == 2
  {
    UnfilteredListsEveryPart(cars, parts, q);
    TwentyRowsTwoPages(Results(cars, parts, q), q.page);
  }

  /** Walking the pages from 1 to the last one yields every result exactly once, in order. */
  lemma PagesCoverResults(cars: map<nat, Car>, parts: map<nat, Part>, q: PartQuery)
    requires ForeignKeys(cars, parts)
    ensures PagesFrom(Results(cars, parts, q), 1, ItemsPerPage) == Results(cars, parts, q)
  {
    PagesCoverList(Results(cars, parts, q), ItemsPerPage);
  }

  /** The parts table with part `id` flagged `flag`. */
  function MarkDeleted(parts: map<nat, Part>, id: nat, flag: bool): (r: map<nat, Part>)
    requires id in parts
    ensures r.Keys == parts.Keys && r[id].deleted == flag
    ensures r[id].name == parts[id].name && r[id].serialnumber == parts[id].serialnumber
    ensures r[id].carId == parts[id].carId && r[id].createdAt == parts[id].createdAt
    ensures forall k :: k in parts && k != id ==> r[k] == parts[k]
  {
    parts[id := parts[id].(deleted := flag)]
  }

  /** Restoring a part just deleted gives back the table it was deleted from. */
  lemma RestoreUndoesDestroy(parts: map<nat, Part>, id: nat)
    requires id in parts && !parts[id].deleted
    ensures MarkDeleted(MarkDeleted(parts, id, true), id, false) == parts
  {
  }

  /** Deleting or restoring a part changes no part list: the part filters never read the flag. */
  lemma FlagDoesNotAffectListing(cars: map<nat, Car>, parts: map<nat, Part>, q: PartQuery, id: nat, flag: bool, k: nat)
    requires ForeignKeys(cars, parts) && id in parts && k in parts
    ensures ForeignKeys(cars, MarkDeleted(parts, id, flag))
    ensures Listed(cars, MarkDeleted(parts, id, flag), q, k) <==> Listed(cars, parts, q, k)
  {
    var parts' := MarkDeleted(parts, id, flag);
    ListedIff(cars, parts, q, k);
    ListedIff(cars, parts', q, k);
    assert RowOf(cars, parts', k).car == RowOf(cars, parts, k).car;
  }

  /** The part a valid request describes, created at time `now`. */
  function NewPart(data: Request, now: nat): Part
  {
    Part(StringValue(Get(data, "name")), StringValue(Get(data, "serialnumber")), IdValue(Get(data, "car_id")), now, false)
  }

  /** `$part->update($validated)`: the three fillable columns change, the rest stay. */
  function Edited(p: Part, data: Request): (r: Part)
    ensures r.createdAt == p.createdAt && r.deleted == p.deleted
  {
    p.(name := StringValue(Get(data, "name")), serialnumber := StringValue(Get(data, "serialnumber")), carId := IdValue(Get(data, "car_id")))
  }

  /** An accepted update moves the part to the car it names, which exists, and keeps the given name and serial number. */
  lemma AcceptedEdit(p: Part, data: Request, cars: map<nat, Car>)
    requires UpdatePartRequest.Passes(data, cars.Keys)
    ensures Edited(p, data).carId in cars
    ensures "car_id" in data && IdOf(data["car_id"]) == Some(Edited(p, data).carId)
    ensures Some(JString(Edited(p, data).name)) == Get(data, "name")
    ensures Some(JString(Edited(p, data).serialnumber)) == Get(data, "serialnumber")
  {
    UpdatePartRequest.SameAsStore(data, cars.Keys);
  }

  /**
   * What the part form shows for an over-long name. On creation the message is
   * the key `validation.partNameMax:255`, which the front end looks up with
   * `max: 255`. On update it is an English sentence, shown as it is, although
   * the part controller tests expect the key on update too.
   */
  lemma OverlongNameShown(data: Request, carIds: set<nat>)
    requires "name" in data && data["name"].JString? && !Text.Blank(data["name"].s) && |data["name"].s| > 255
    requires FilledStringUpTo(Get(data, "serialnumber"), 255) && StorePartRequest.CarIdOk(Get(data, "car_id"), carIds)
    ensures Errors(StorePartRequest.Rules, StorePartRequest.Messages, data, carIds)
              == [("name", [Custom(StorePartRequest.Messages["name.max"])])]
    ensures ValidationTranslator.TranslateError(ValidationTranslator.JsString(StorePartRequest.Messages["name.max"]))
              == ValidationTranslator.Lookup("validation.partNameMax", Some(ValidationTranslator.Num(255)))
    ensures Errors(UpdatePartRequest.Rules, UpdatePartRequest.Messages, data, carIds)
              == [("name", [Custom(UpdatePartRequest.Messages["name.max"])])]
    ensures ValidationTranslator.TranslateError(ValidationTranslator.JsString(UpdatePartRequest.Messages["name.max"]))
              == ValidationTranslator.Unchanged(ValidationTranslator.JsString(UpdatePartRequest.Messages["name.max"]))
  {
    StorePartRequest.OverlongNameMessage(data, carIds);
    UpdatePartRequest.OverlongNameMessage(data, carIds);
    assert StorePartRequest.Messages["name.max"] == "validation.partNameMax:255";
    assert UpdatePartRequest.Messages["name.max"] == "Part name cannot exceed 255 characters";
    ValidationTranslator.PartNameMaxMessage("validation.partNameMax:255");
    ValidationTranslator.SentenceMessage("Part name cannot exceed 255 characters");
  }

  datatype Failure = NotFound | NotDeleted | Invalid(errors: seq<(string, seq<Message>)>)

  /** `store`: a valid request adds a part under the next id; an invalid one changes nothing. */
  method Store(db: Database, data: Request, now: nat) returns (r: Result<nat, Failure>)
    requires db.Valid()
    modifies db
    ensures db.Valid()
    ensures !StorePartRequest.Passes(data, old(db.cars).Keys) ==>
              && r == Failure(Invalid(Errors(StorePartRequest.Rules, StorePartRequest.Messages, data, old(db.cars).Keys)))
              && unchanged(db)
    ensures StorePartRequest.Passes(data, old(db.cars).Keys) ==>
              && r == Success(old(db.nextPartId))
              && db.parts == old(db.parts)[old(db.nextPartId) := NewPart(data, now)]
              && db.cars == old(db.cars) && db.nextCarId == old(db.nextCarId) && db.nextPartId == old(db.nextPartId) + 1
  {
    if !StorePartRequest.Passes(data, db.cars.Keys) {
      return Failure(Invalid(Errors(StorePartRequest.Rules, StorePartRequest.Messages, data, db.cars.Keys)));
    }
    StorePartRequest.AcceptsIff(data, db.cars.Keys);
    var id := db.nextPartId;
    db.parts := db.parts[id := NewPart(data, now)];
    db.nextPartId := id + 1;
    r := Success(id);
  }

  /**
   * `update`: an unknown id is not found; an invalid request changes nothing;
   * otherwise only that part's name, serial number and car change.
   */
  method Update(db: Database, id: nat, data: Request) returns (r: Result<nat, Failure>)
    requires db.Valid()
    modifies db
    ensures db.Valid()
    ensures id !in old(db.parts) ==> r == Failure(NotFound) && unchanged(db)
    ensures id in old(db.parts) && !UpdatePartRequest.Passes(data, old(db.cars).Keys) ==>
              && r == Failure(Invalid(Errors(UpdatePartRequest.Rules, UpdatePartRequest.Messages, data, old(db.cars).Keys)))
              && unchanged(db)
    ensures id in old(db.parts) && UpdatePartRequest.Passes(data, old(db.cars).Keys) ==>
              && r == Success(id)
              && db.parts == old(db.parts)[id := Edited(old(db.parts)[id], data)]
              && db.cars == old(db.cars) && db.nextCarId == old(db.nextCarId) && db.nextPartId == old(db.nextPartId)
  {
    if id !in db.parts {
      return Failure(NotFound);
    }
    if !UpdatePartRequest.Passes(data, db.cars.Keys) {
      return Failure(Invalid(Errors(UpdatePartRequest.Rules, UpdatePartRequest.Messages, data, db.cars.Keys)));
    }
    AcceptedEdit(db.parts[id], data, db.cars);
    db.parts := db.parts[id := Edited(db.parts[id], data)];
    r := Success(id);
  }

  /** `destroy`: flags the part deleted; its car and every other row stay as they were. */
  method Destroy(db: Database, id: nat) returns (r: Result<nat, Failure>)
    requires db.Valid()
    modifies db
    ensures db.Valid()
    ensures id !in old(db.parts) ==> r == Failure(NotFound) && unchanged(db)
    ensures id in old(db.parts) ==>
              && r == Success(id)
              && db.parts == MarkDeleted(old(db.parts), id, true)
              && db.cars == old(db.cars) && db.nextCarId == old(db.nextCarId) && db.nextPartId == old(db.nextPartId)
  {
    if id !in db.parts {
      return Failure(NotFound);
    }
    db.parts := MarkDeleted(db.parts, id, true);
    r := Success(id);
  }

  /**
   * `restore`: an unknown id is not found, a part that is not deleted is
   * refused, and both leave everything unchanged; otherwise only that part's
   * flag is cleared.
   */
  method Restore(db: Database, id: nat) returns (r: Result<nat, Failure>)
    requires db.Valid()
    modifies db
    ensures db.Valid()
    ensures id !in old(db.parts) ==> r == Failure(NotFound) && unchanged(db)
    ensures id in old(db.parts) && !old(db.parts)[id].deleted ==> r == Failure(NotDeleted) && unchanged(db)
    ensures id in old(db.parts) && old(db.parts)[id].deleted ==>
              && r == Success(id)
              && db.parts == MarkDeleted(old(db.parts), id, false)
              && db.cars == old(db.cars) && db.nextCarId == old(db.nextCarId) && db.nextPartId == old(db.nextPartId)
  {
    if id !in db.parts {
      return Failure(NotFound);
    }
    if !db.parts[id].deleted {
      return Failure(NotDeleted);
    }
    db.parts := MarkDeleted(db.parts, id, false);
    r := Success(id);
  }
}
