/**
 * The car endpoints. `index` lists cars with the parts their `parts`
 * relation loads (those not flagged deleted), filtered by a search string and
 * the registration flag, ordered by name and cut into pages
 * of 10; `all` lists every car by name; `store` and `update` fill the
 * validated columns; `destroy` removes the car, and the parts foreign key
 * (onDelete cascade) removes its parts with it.
 *
 * Cars are removed outright: there is no car restore in the controller,
 * although the routes name one.
 */
module CarController {
  import opened Wrappers
  import Text
  import opened Listing
  import opened Models
  import opened ValidationRules
  import StoreCarRequest
  import UpdateCarRequest
  import PartController

  const ItemsPerPage: nat := 10

  /** A car as `index` and `show` return it, with the parts its `parts` relation loads. */
  datatype CarRow = CarRow(id: nat, car: Car, parts: map<nat, Part>)

  /** The query string of `GET /api/cars`. */
  datatype CarQuery = CarQuery(search: Param, isRegistered: Param, page: int)

  function RowOf(cars: map<nat, Car>, parts: map<nat, Part>, id: nat): CarRow
    requires id in cars
  {
    CarRow(id, cars[id], LoadedParts(parts, id))
  }

  /** Every car with its parts, each car once, in id order. */
  function Rows(cars: map<nat, Car>, parts: map<nat, Part>): (r: seq<CarRow>)
    ensures forall i :: 0 <= i < |r| ==> r[i].id in cars && r[i] == RowOf(cars, parts, r[i].id)
    ensures forall id :: id in cars ==> exists i :: 0 <= i < |r| && r[i].id == id
    ensures |r| == |cars| && forall i, j :: 0 <= i < j < |r| ==> r[i].id != r[j].id
  {
    var r := RowsFor(cars, parts, SortedIds(cars.Keys));
    RowsListEach(cars, parts, r);
    r
  }

  /** The rows built for the table's keys in order hold each car once. */
  lemma RowsListEach(cars: map<nat, Car>, parts: map<nat, Part>, r: seq<CarRow>)
    requires r == RowsFor(cars, parts, SortedIds(cars.Keys))
    ensures forall i :: 0 <= i < |r| ==> r[i].id in cars && r[i] == RowOf(cars, parts, r[i].id)
    ensures forall id :: id in cars ==> exists i :: 0 <= i < |r| && r[i].id == id
    ensures |r| == |cars| && forall i, j :: 0 <= i < j < |r| ==> r[i].id != r[j].id
  {
    var ids := SortedIds(cars.Keys);
    RowsForKeys(cars, parts, ids, r);
    RowsForCover(cars, parts, ids, r);
    RowsForDistinct(cars, parts, ids, r);
  }

  /** The rows built for the table's keys in order: each is the one for its key. */
  lemma RowsForKeys(cars: map<nat, Car>, parts: map<nat, Part>, ids: seq<nat>, r: seq<CarRow>)
    requires ids == SortedIds(cars.Keys)
    requires r == RowsFor(cars, parts, ids)
    ensures forall i :: 0 <= i < |r| ==> r[i].id in cars && r[i] == RowOf(cars, parts, r[i].id)
    ensures |r| == |cars|
  {
    assert |ids| == |cars.Keys| == |cars|;
  }

  /** Every key of the table has one of the rows built for its keys in order. */
  lemma RowsForCover(cars: map<nat, Car>, parts: map<nat, Part>, ids: seq<nat>, r: seq<CarRow>)
    requires ids == SortedIds(cars.Keys)
    requires r == RowsFor(cars, parts, ids)
    ensures forall id :: id in cars ==> exists i :: 0 <= i < |r| && r[i].id == id
  {
    forall id | id in cars
      ensures exists i :: 0 <= i < |r| && r[i].id == id
    {
      assert id in ids;
      var i :| 0 <= i < |ids| && ids[i] == id;
      assert r[i] == RowOf(cars, parts, ids[i]);
      assert r[i].id == ids[i];
    }
  }

  /** No key of the table has two of the rows built for its keys in order. */
  lemma RowsForDistinct(cars: map<nat, Car>, parts: map<nat, Part>, ids: seq<nat>, r: seq<CarRow>)
    requires ids == SortedIds(cars.Keys)
    requires r == RowsFor(cars, parts, ids)
    ensures forall i, j :: 0 <= i < j < |r| ==> r[i].id != r[j].id
  {
    forall i, j | 0 <= i < j < |r|
      ensures r[i].id != r[j].id
    {
      assert r[i].id == ids[i] < ids[j] == r[j].id;
    }
  }

  /** The rows of the cars with ids `ids`, in that order. */
  function RowsFor(cars: map<nat, Car>, parts: map<nat, Part>, ids: seq<nat>): (r: seq<CarRow>)
    requires forall i :: 0 <= i < |ids| ==> ids[i] in cars
    ensures |r| == |ids| && forall i :: 0 <= i < |r| ==> r[i] == RowOf(cars, parts, ids[i])
  {
    if ids == [] then [] else [RowOf(cars, parts, ids[0])] + RowsFor(cars, parts, ids[1..])
  }

  /** The search string occurs in the car's name or its registration number. */
  predicate SearchHit(car: Car, search: string)
  {
    Text.Contains(car.name, search) || (car.registrationNumber.Some? && Text.Contains(car.registrationNumber.value, search))
  }

  /** `$request->boolean($key)`: "1", "true", "on" and "yes", in any letter case, read as true. */
  predicate BooleanReading(text: string)
  {
    Text.Lower(text) in {"1", "true", "on", "yes"}
  }

  /** Both filters; a filter whose parameter is missing or empty is not applied. */
  predicate Matches(search: Param, isRegistered: Param, car: Car)
  {
    && (Truthy(search) ==> SearchHit(car, search.text))
    && (NonEmpty(isRegistered) ==> car.isRegistered == BooleanReading(isRegistered.text))
  }

  function Keep(search: Param, isRegistered: Param): CarRow -> bool
  {
    (row: CarRow) => Matches(search, isRegistered, row.car)
  }

  function ByName(): CarRow -> SortValue
  {
    (row: CarRow) => TextValue(row.car.name)
  }

  /** All matching cars, ordered by name; `index` returns one page of these. */
  function Results(cars: map<nat, Car>, parts: map<nat, Part>, q: CarQuery): (r: seq<CarRow>)
    ensures multiset(r) == multiset(Filter(Rows(cars, parts), Keep(q.search, q.isRegistered)))
    ensures Sorted(r, ByName(), Asc)
  {
    Sort(Filter(Rows(cars, parts), Keep(q.search, q.isRegistered)), ByName(), Asc)
  }

  function Index(cars: map<nat, Car>, parts: map<nat, Part>, q: CarQuery): (r: Page<CarRow>)
    ensures r.total == |Results(cars, parts, q)| && r.perPage == ItemsPerPage && |r.data| <= ItemsPerPage
    ensures r.currentPage == ResolvePage(q.page) && r.lastPage == LastPage(r.total, ItemsPerPage)
    ensures forall i :: 0 <= i < |r.data| ==> r.data[i] in Results(cars, parts, q)
  {
    PageWithin(Results(cars, parts, q), q.page, ItemsPerPage);
    Paginate(Results(cars, parts, q), q.page, ItemsPerPage)
  }

  predicate Listed(cars: map<nat, Car>, parts: map<nat, Part>, q: CarQuery, id: nat)
  {
    var r := Results(cars, parts, q);
    exists i :: 0 <= i < |r| && r[i].id == id
  }

  /** Every listed row is a car of the table, with its loaded parts, that the filters accept. */
  lemma ResultsAreMatchingRows(cars: map<nat, Car>, parts: map<nat, Part>, q: CarQuery)
    ensures var r := Results(cars, parts, q);
            forall i :: 0 <= i < |r| ==> r[i].id in cars && r[i] == RowOf(cars, parts, r[i].id) && Matches(q.search, q.isRegistered, r[i].car)
  {
    var rows := Rows(cars, parts);
    KeptRowsMatch(cars, parts, q, rows, Filter(rows, Keep(q.search, q.isRegistered)), Results(cars, parts, q));
  }

  /** A reordering of the rows the filters keep holds only rows of the table that match. */
  lemma KeptRowsMatch(cars: map<nat, Car>, parts: map<nat, Part>, q: CarQuery, rows: seq<CarRow>, f: seq<CarRow>, r: seq<CarRow>)
    requires rows == Rows(cars, parts)
    requires f == Filter(rows, Keep(q.search, q.isRegistered))
    requires multiset(r) == multiset(f)
    ensures forall i :: 0 <= i < |r| ==> r[i].id in cars && r[i] == RowOf(cars, parts, r[i].id) && Matches(q.search, q.isRegistered, r[i].car)
  {
    forall i | 0 <= i < |r|
      ensures r[i].id in cars && r[i] == RowOf(cars, parts, r[i].id) && Matches(q.search, q.isRegistered, r[i].car)
    {
      assert r[i] in multiset(r);
      assert r[i] in f;
      assert r[i] in rows;
    }
  }

  /**
   * A car is listed exactly when its name or registration number contains a
   * truthy search string and, when the flag filter is given, its flag equals
   * the flag's boolean reading.
   */
  lemma ListedIff(cars: map<nat, Car>, parts: map<nat, Part>, q: CarQuery, id: nat)
    requires id in cars
    ensures Listed(cars, parts, q, id) <==>
              && (Truthy(q.search) ==> SearchHit(cars[id], q.search.text))
              && (NonEmpty(q.isRegistered) ==> cars[id].isRegistered == BooleanReading(q.isRegistered.text))
  {
    if Listed(cars, parts, q, id) {
      MatchingWhenListed(cars, parts, q, id);
    }
    if Matches(q.search, q.isRegistered, cars[id]) {
      ListedWhenMatching(cars, parts, q, id);
    }
  }

  lemma MatchingWhenListed(cars: map<nat, Car>, parts: map<nat, Part>, q: CarQuery, id: nat)
    requires id in cars && Listed(cars, parts, q, id)
    ensures Matches(q.search, q.isRegistered, cars[id])
  {
    ResultsAreMatchingRows(cars, parts, q);
    var r := Results(cars, parts, q);
    var i :| 0 <= i < |r| && r[i].id == id;
    assert r[i] == RowOf(cars, parts, id);
  }

  lemma ListedWhenMatching(cars: map<nat, Car>, parts: map<nat, Part>, q: CarQuery, id: nat)
    requires id in cars && Matches(q.search, q.isRegistered, cars[id])
    ensures Listed(cars, parts, q, id)
  {
    var rows := Rows(cars, parts);
    var row := RowOf(cars, parts, id);
    var j :| 0 <= j < |rows| && rows[j].id == id;
    assert rows[j] == row;
    var f := Filter(rows, Keep(q.search, q.isRegistered));
    assert row in f;
    SortSameElements(f, ByName(), Asc);
    var r := Results(cars, parts, q);
    assert row in r;
    var i :| 0 <= i < |r| && r[i] == row;
    assert r[i].id == id;
  }

  /** An absent search, '' and "0" filter nothing out. */
  lemma FalsySearchIgnored(cars: map<nat, Car>, parts: map<nat, Part>, q: CarQuery, id: nat)
    requires id in cars && (q.search == Absent || q.search == Given("") || q.search == Given("0"))
    ensures Listed(cars, parts, q, id) <==> Listed(cars, parts, q.(search := Absent), id)
  {
    ListedIff(cars, parts, q, id);
    ListedIff(cars, parts, q.(search := Absent), id);
  }

  /** Each listed car carries exactly its parts that are not flagged deleted, with their values. */
  lemma RowsCarryAllParts(cars: map<nat, Car>, parts: map<nat, Part>, q: CarQuery, i: nat)
    requires i < |Results(cars, parts, q)|
    ensures var row := Results(cars, parts, q)[i];
            && (forall k :: k in row.parts <==> k in parts && parts[k].carId == row.id && !parts[k].deleted)
            && (forall k :: k in row.parts ==> row.parts[k] == parts[k])
  {
    ResultsAreMatchingRows(cars, parts, q);
  }

  /** The list is ordered by name ascending. */
  lemma ResultsOrdered(cars: map<nat, Car>, parts: map<nat, Part>, q: CarQuery, i: nat, j: nat)
    requires i < j < |Results(cars, parts, q)|
    ensures var r := Results(cars, parts, q);
            Text.StrLe(r[i].car.name, r[j].car.name)
  {
    SortedPairs(Results(cars, parts, q), ByName(), Asc, i, j);
  }

  /** Pages hold 10 cars; the last page is counted over the filtered results. */
  lemma IndexPage(cars: map<nat, Car>, parts: map<nat, Part>, q: CarQuery)
    ensures var r := Results(cars, parts, q);
            var p := Index(cars, parts, q);
            && p.total == |r| && p.perPage == 10 && p.lastPage == LastPage(|r|, 10)
            && |p.data| <= 10
            && p.data == Window(r, Offset(ResolvePage(q.page), 10), 10)
  {
  }

  /** A car and its id, as `all` returns them (without parts). */
  datatype CarRecord = CarRecord(id: nat, car: Car)

  function Records(cars: map<nat, Car>): (r: seq<CarRecord>)
    ensures forall i :: 0 <= i < |r| ==> r[i].id in cars && r[i].car == cars[r[i].id]
    ensures forall id :: id in cars ==> exists i :: 0 <= i < |r| && r[i].id == id
    ensures |r| == |cars| && forall i, j :: 0 <= i < j < |r| ==> r[i].id != r[j].id
  {
    var ids := SortedIds(cars.Keys);
    var r := RecordsFor(cars, ids);
    RecordsForKeys(cars, ids, r);
    RecordsForCover(cars, ids, r);
    RecordsForDistinct(cars, ids, r);
    r
  }

  /** The records built for the table's keys in order: each is the one for its key. */
  lemma RecordsForKeys(cars: map<nat, Car>, ids: seq<nat>, r: seq<CarRecord>)
    requires ids == SortedIds(cars.Keys)
    requires r == RecordsFor(cars, ids)
    ensures forall i :: 0 <= i < |r| ==> r[i].id in cars && r[i].car == cars[r[i].id]
    ensures |r| == |cars|
  {
    assert |ids| == |cars.Keys| == |cars|;
  }

  /** Every key of the table has one of the records built for its keys in order. */
  lemma RecordsForCover(cars: map<nat, Car>, ids: seq<nat>, r: seq<CarRecord>)
    requires ids == SortedIds(cars.Keys)
    requires r == RecordsFor(cars, ids)
    ensures forall id :: id in cars ==> exists i :: 0 <= i < |r| && r[i].id == id
  {
    forall id | id in cars
      ensures exists i :: 0 <= i < |r| && r[i].id == id
    {
      assert id in ids;
      var i :| 0 <= i < |ids| && ids[i] == id;
      assert r[i].id == ids[i];
    }
  }

  /** No key of the table has two of the records built for its keys in order. */
  lemma RecordsForDistinct(cars: map<nat, Car>, ids: seq<nat>, r: seq<CarRecord>)
    requires ids == SortedIds(cars.Keys)
    requires r == RecordsFor(cars, ids)
    ensures forall i, j :: 0 <= i < j < |r| ==> r[i].id != r[j].id
  {
    forall i, j | 0 <= i < j < |r|
      ensures r[i].id != r[j].id
    {
      assert r[i].id == ids[i] < ids[j] == r[j].id;
    }
  }

  /** The records of the cars with ids `ids`, in that order. */
  function RecordsFor(cars: map<nat, Car>, ids: seq<nat>): (r: seq<CarRecord>)
    requires forall i :: 0 <= i < |ids| ==> ids[i] in cars
    ensures |r| == |ids| && forall i :: 0 <= i < |r| ==> r[i] == CarRecord(ids[i], cars[ids[i]])
  {
    if ids == [] then [] else [CarRecord(ids[0], cars[ids[0]])] + RecordsFor(cars, ids[1..])
  }

  function RecordName(): CarRecord -> SortValue
  {
    (rec: CarRecord) => TextValue(rec.car.name)
  }

  /** `all`: every car, ordered by name, on one page. */
  function All(cars: map<nat, Car>): (r: seq<CarRecord>)
    ensures multiset(r) == multiset(Records(cars))
    ensures Sorted(r, RecordName(), Asc)
    ensures |r| == |cars|
  {
    var r := Sort(Records(cars), RecordName(), Asc);
    assert |r| == |multiset(r)| == |multiset(Records(cars))| == |Records(cars)|;
    r
  }

  lemma AllIsEveryCarByName(cars: map<nat, Car>)
    ensures var r := All(cars);
            && (forall i :: 0 <= i < |r| ==> r[i].id in cars && r[i].car == cars[r[i].id])
            && (forall id :: id in cars ==> exists i :: 0 <= i < |r| && r[i].id == id)
            && (forall i, j :: 0 <= i < j < |r| ==> Text.StrLe(r[i].car.name, r[j].car.name))
  {
    var recs := Records(cars);
    var r := All(cars);
    SortSameElements(recs, RecordName(), Asc);
    forall i | 0 <= i < |r|
      ensures r[i].id in cars && r[i].car == cars[r[i].id]
    {
      assert r[i] in recs;
    }
    forall id | id in cars
      ensures exists i :: 0 <= i < |r| && r[i].id == id
    {
      AllHoldsCar(cars, id);
    }
    forall i, j | 0 <= i < j < |r|
      ensures Text.StrLe(r[i].car.name, r[j].car.name)
    {
      SortedPairs(r, RecordName(), Asc, i, j);
    }
  }

  /** `all` lists each car once. */
  lemma AllListsEachCarOnce(cars: map<nat, Car>)
    ensures var r := All(cars);
            && (forall i, j :: 0 <= i < j < |r| ==> r[i].id != r[j].id)
            && |r| == |cars|
  {
    var recs := Records(cars);
    var r := All(cars);
    PermutationKeepsKeysDistinct(r, recs, RecordId);
  }

  function RecordId(rec: CarRecord): nat
  {
    rec.id
  }

  lemma AllHoldsCar(cars: map<nat, Car>, id: nat)
    requires id in cars
    ensures exists i :: 0 <= i < |All(cars)| && All(cars)[i].id == id
  {
    var recs := Records(cars);
    var x := CarRecord(id, cars[id]);
    RecordListed(cars, id);
    SortSameElements(recs, RecordName(), Asc);
    var r := All(cars);
    assert x in r;
    var i :| 0 <= i < |r| && r[i] == x;
    assert r[i].id == id;
  }

  /** Each car has its record among the table's records. */
  lemma RecordListed(cars: map<nat, Car>, id: nat)
    requires id in cars
    ensures CarRecord(id, cars[id]) in Records(cars)
  {
    var recs := Records(cars);
    var j :| 0 <= j < |recs| && recs[j].id == id;
    assert recs[j] == CarRecord(id, cars[id]);
  }

  /** `show`: the car with the parts not flagged deleted, or nothing when there is no such car. */
  function Show(cars: map<nat, Car>, parts: map<nat, Part>, id: nat): (r: Option<CarRow>)
    ensures r.Some? <==> id in cars
    ensures r.Some? ==> r.value.car == cars[id] && (forall k :: k in r.value.parts <==> k in parts && parts[k].carId == id && !parts[k].deleted)
    ensures r.Some? ==> forall k :: k in r.value.parts ==> r.value.parts[k] == parts[k]
  {
    if id in cars then Some(RowOf(cars, parts, id)) else None
  }

  /**
   * Deleting a part takes it out of its car's `show`, restoring it puts it
   * back, and the car's other parts stay as they were either way.
   */
  lemma DestroyHidesPart(cars: map<nat, Car>, parts: map<nat, Part>, id: nat)
    requires ForeignKeys(cars, parts) && id in parts
    ensures var before := Show(cars, parts, parts[id].carId);
            var after := Show(cars, PartController.MarkDeleted(parts, id, true), parts[id].carId);
            && before.Some? && after.Some?
            && id !in after.value.parts
            && (forall k :: k != id ==> (k in after.value.parts <==> k in before.value.parts))
    ensures var before := Show(cars, parts, parts[id].carId);
            var after := Show(cars, PartController.MarkDeleted(parts, id, false), parts[id].carId);
            && before.Some? && after.Some?
            && id in after.value.parts && after.value.parts[id] == parts[id].(deleted := false)
            && (forall k :: k != id ==> (k in after.value.parts <==> k in before.value.parts))
  {
    var hidden := PartController.MarkDeleted(parts, id, true);
    var shown := PartController.MarkDeleted(parts, id, false);
    assert hidden[id] == parts[id].(deleted := true);
    assert shown[id] == parts[id].(deleted := false);
  }

  /** The list holds each car at most once. */
  lemma ResultsListEachCarOnce(cars: map<nat, Car>, parts: map<nat, Part>, q: CarQuery)
    ensures var r := Results(cars, parts, q);
            forall i, j :: 0 <= i < j < |r| ==> r[i].id != r[j].id
  {
    var rows := Rows(cars, parts);
    var keep := Keep(q.search, q.isRegistered);
    var kept := Filter(rows, keep);
    FilterKeepsKeysDistinct(rows, keep, RowId, kept);
    PermutationKeepsKeysDistinct(Results(cars, parts, q), kept, RowId);
  }

  function RowId(row: CarRow): nat
  {
    row.id
  }

  /** Without a search and a registration filter the list holds every car. */
  lemma UnfilteredListsEveryCar(cars: map<nat, Car>, parts: map<nat, Part>, q: CarQuery)
    requires !Truthy(q.search) && !NonEmpty(q.isRegistered)
    ensures |Results(cars, parts, q)| == |cars|
  {
    var rows := Rows(cars, parts);
    var keep := Keep(q.search, q.isRegistered);
    forall i | 0 <= i < |rows|
      ensures keep(rows[i])
    {
      assert Matches(q.search, q.isRegistered, rows[i].car);
    }
    FilterKeepsAll(rows, keep);
    var r := Results(cars, parts, q);
    assert multiset(r) == multiset(rows);
    assert |r| == |multiset(r)| == |multiset(rows)| == |rows|;
  }

  /** What a stored registration number becomes: strings are kept, null (or anything else) is none. */
  function RegistrationValue(v: Json): Option<string>
  {
    if v.JString? then Some(v.s) else None
  }

  /** `$car->fill($validated)`: each fillable column present in `validated` takes its value. */
  function Fill(c: Car, validated: Request): (r: Car)
    ensures "name" !in validated ==> r.name == c.name
    ensures "registration_number" !in validated ==> r.registrationNumber == c.registrationNumber
    ensures "is_registered" !in validated ==> r.isRegistered == c.isRegistered
    ensures "name" in validated && validated["name"].JString? ==> r.name == validated["name"].s
    ensures "registration_number" in validated && validated["registration_number"].JString? ==>
              r.registrationNumber == Some(validated["registration_number"].s)
    ensures "registration_number" in validated && validated["registration_number"].JNull? ==> r.registrationNumber.None?
    ensures "is_registered" in validated ==> (r.isRegistered <==> ToBool(validated["is_registered"]))
  {
    Car(
      if "name" in validated then StringValue(Some(validated["name"])) else c.name,
      if "registration_number" in validated then RegistrationValue(validated["registration_number"]) else c.registrationNumber,
      if "is_registered" in validated then ToBool(validated["is_registered"]) else c.isRegistered)
  }

  /** A new row: a null registration number and `is_registered` false unless the request sets them. */
  const NewRow: Car := Car("", None, false)

  function NewCar(data: Request): Car
  {
    Fill(NewRow, Validated(StoreCarRequest.Rules, data))
  }

  function Changed(c: Car, data: Request): Car
  {
    Fill(c, Validated(UpdateCarRequest.Rules, data))
  }

  /**
   * A car created from an accepted request has the given name, a registration
   * number, when it has a non-blank one, of the form AA000XX, and, when it is
   * stored as registered, such a number.
   */
  lemma StoredCarIsWellFormed(data: Request)
    requires StoreCarRequest.Passes(data)
    ensures Some(JString(NewCar(data).name)) == Get(data, "name")
    ensures var n := NewCar(data).registrationNumber;
            n.Some? && !Text.Blank(n.value) ==> StoreCarRequest.WellFormedNumber(n.value)
    ensures NewCar(data).isRegistered ==>
              NewCar(data).registrationNumber.Some? && StoreCarRequest.WellFormedNumber(NewCar(data).registrationNumber.value)
  {
    StoreCarRequest.AcceptsIff(data);
    assert StoreCarRequest.Rules[0].0 == "name" && StoreCarRequest.Rules[1].0 == "registration_number";
    assert StoreCarRequest.Rules[2].0 == "is_registered";
    var n := NewCar(data).registrationNumber;
    if n.Some? && !Text.Blank(n.value) {
      StoreCarRequest.AcceptedNumberIsWellFormed(data, n.value);
    }
    if NewCar(data).isRegistered {
      StoreCarRequest.RegisteredNeedsNumber(data);
    }
  }

  /** The flag 1 reads true for `required_if` too: without a number the car is refused; with one it is stored registered. */
  lemma IntegerFlagNeedsNumber(name: string, number: string)
    requires name == "Car" && number == "AB123CD"
    ensures !StoreCarRequest.Passes(map["name" := JString(name), "is_registered" := JInt(1)])
    ensures var data := map["name" := JString(name), "is_registered" := JInt(1), "registration_number" := JString(number)];
            && StoreCarRequest.Passes(data)
            && NewCar(data).isRegistered && NewCar(data).registrationNumber == Some(number)
  {
    IntegerFlagWithoutNumber(name);
    IntegerFlagWithNumber(name, number);
  }

  lemma IntegerFlagWithoutNumber(name: string)
    requires name == "Car"
    ensures !StoreCarRequest.Passes(map["name" := JString(name), "is_registered" := JInt(1)])
  {
    var without := map["name" := JString(name), "is_registered" := JInt(1)];
    StoreCarRequest.AcceptsIff(without);
    assert StoreCarRequest.Rules[1].0 == "registration_number" && StoreCarRequest.Rules[2].0 == "is_registered";
  }

  lemma IntegerFlagWithNumber(name: string, number: string)
    requires name == "Car" && number == "AB123CD"
    ensures var data := map["name" := JString(name), "is_registered" := JInt(1), "registration_number" := JString(number)];
            && StoreCarRequest.Passes(data)
            && NewCar(data).isRegistered && NewCar(data).registrationNumber == Some(number)
  {
    var data := map["name" := JString(name), "is_registered" := JInt(1), "registration_number" := JString(number)];
    IntegerFlagRequestPasses(data, name, number);
    assert StoreCarRequest.Rules[1].0 == "registration_number" && StoreCarRequest.Rules[2].0 == "is_registered";
  }

  lemma IntegerFlagRequestPasses(data: Request, name: string, number: string)
    requires name == "Car" && number == "AB123CD"
    requires data == map["name" := JString(name), "is_registered" := JInt(1), "registration_number" := JString(number)]
    ensures StoreCarRequest.Passes(data)
  {
    assert !Text.Blank(name) by {
      assert !Text.IsTrimmed(name[0]);
    }
    assert FilledStringUpTo(Get(data, "name"), 255);
    assert !Text.Blank(number) by {
      assert !Text.IsTrimmed(number[0]);
    }
    StoreCarRequest.PatternMatches(number);
    assert StoreCarRequest.WellFormedNumber(number);
    assert StoreCarRequest.RegistrationNumberOk(data);
    assert StoreCarRequest.IsRegisteredOk(Get(data, "is_registered"));
    StoreCarRequest.AcceptsIff(data);
  }

  /**
   * An update changes only the columns the request carries: the name it always
   * carries, a string or null number, and the flag as it converts to bool. A
   * car the request flags as registered receives a non-blank number.
   */
  lemma UpdateChangesOnlyGiven(c: Car, data: Request)
    requires UpdateCarRequest.Passes(data)
    ensures Some(JString(Changed(c, data).name)) == Get(data, "name")
    ensures "registration_number" !in data ==> Changed(c, data).registrationNumber == c.registrationNumber
    ensures "is_registered" !in data ==> Changed(c, data).isRegistered == c.isRegistered
    ensures "registration_number" in data && data["registration_number"].JString? ==>
              Changed(c, data).registrationNumber == Some(data["registration_number"].s)
    ensures "registration_number" in data && data["registration_number"].JNull? ==> Changed(c, data).registrationNumber.None?
    ensures "is_registered" in data ==> (Changed(c, data).isRegistered <==> ToBool(data["is_registered"]))
    ensures "is_registered" in data && ToBool(data["is_registered"]) ==>
              var n := Changed(c, data).registrationNumber;
              n.Some? && !Text.Blank(n.value) && |n.value| <= 255
  {
    UpdateCarRequest.AcceptsIff(data);
    assert UpdateCarRequest.Rules[0].0 == "name" && UpdateCarRequest.Rules[1].0 == "registration_number";
    assert UpdateCarRequest.Rules[2].0 == "is_registered";
    if "is_registered" in data && ToBool(data["is_registered"]) {
      UpdateCarRequest.RegisteredNeedsNumber(data);
    }
  }

  /** The parts table once car `carId` and its parts are gone. */
  function WithoutCar(parts: map<nat, Part>, carId: nat): (r: map<nat, Part>)
    ensures forall k :: k in r <==> k in parts && parts[k].carId != carId
    ensures forall k :: k in r ==> r[k] == parts[k]
  {
    map k | k in parts && parts[k].carId != carId :: parts[k]
  }

  /** Removing a car with its parts keeps the foreign key intact. */
  lemma CascadeKeepsForeignKeys(cars: map<nat, Car>, parts: map<nat, Part>, carId: nat)
    requires ForeignKeys(cars, parts)
    ensures ForeignKeys(cars - {carId}, WithoutCar(parts, carId))
    ensures PartsOf(WithoutCar(parts, carId), carId) == map[]
  {
  }

  datatype Failure = NotFound | Invalid(errors: seq<(string, seq<Message>)>)

  /** `store`: an accepted request adds the car under the next id. */
  method Store(db: Database, data: Request) returns (r: Result<nat, Failure>)
    requires db.Valid()
    modifies db
    ensures db.Valid()
    ensures !StoreCarRequest.Passes(data) ==>
              r == Failure(Invalid(Errors(StoreCarRequest.Rules, StoreCarRequest.Messages, data, {}))) && unchanged(db)
    ensures StoreCarRequest.Passes(data) ==>
              && r == Success(old(db.nextCarId))
              && db.cars == old(db.cars)[old(db.nextCarId) := NewCar(data)]
              && db.parts == old(db.parts) && db.nextCarId == old(db.nextCarId) + 1 && db.nextPartId == old(db.nextPartId)
  {
    if !StoreCarRequest.Passes(data) {
      return Failure(Invalid(Errors(StoreCarRequest.Rules, StoreCarRequest.Messages, data, {})));
    }
    var id := db.nextCarId;
    db.cars := db.cars[id := NewCar(data)];
    db.nextCarId := id + 1;
    r := Success(id);
  }

  /** `update`: an unknown id is not found; an invalid request changes nothing; otherwise only that car changes. */
  method Update(db: Database, id: nat, data: Request) returns (r: Result<nat, Failure>)
    requires db.Valid()
    modifies db
    ensures db.Valid()
    ensures id !in old(db.cars) ==> r == Failure(NotFound) && unchanged(db)
    ensures id in old(db.cars) && !UpdateCarRequest.Passes(data) ==>
              r == Failure(Invalid(Errors(UpdateCarRequest.Rules, UpdateCarRequest.Messages, data, {}))) && unchanged(db)
    ensures id in old(db.cars) && UpdateCarRequest.Passes(data) ==>
              && r == Success(id)
              && db.cars == old(db.cars)[id := Changed(old(db.cars)[id], data)]
              && db.parts == old(db.parts) && db.nextCarId == old(db.nextCarId) && db.nextPartId == old(db.nextPartId)
  {
    if id !in db.cars {
      return Failure(NotFound);
    }
    if !UpdateCarRequest.Passes(data) {
      return Failure(Invalid(Errors(UpdateCarRequest.Rules, UpdateCarRequest.Messages, data, {})));
    }
    db.cars := db.cars[id := Changed(db.cars[id], data)];
    r := Success(id);
  }

  /** `destroy`: removes the car and, through the cascade, exactly its parts; other parts are untouched. */
  method Destroy(db: Database, id: nat) returns (r: Result<nat, Failure>)
    requires db.Valid()
    modifies db
    ensures db.Valid()
    ensures id !in old(db.cars) ==> r == Failure(NotFound) && unchanged(db)
    ensures id in old(db.cars) ==>
              && r == Success(id)
              && db.cars == old(db.cars) - {id}
              && db.parts == WithoutCar(old(db.parts), id)
              && db.nextCarId == old(db.nextCarId) && db.nextPartId == old(db.nextPartId)
  {
    if id !in db.cars {
      return Failure(NotFound);
    }
    CascadeKeepsForeignKeys(db.cars, db.parts, id);
    db.cars := db.cars - {id};
    db.parts := WithoutCar(db.parts, id);
    r := Success(id);
  }
}
